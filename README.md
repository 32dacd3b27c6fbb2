# Users, exercises and favorites: a Dafny model

This project models the two model classes of an exercise-tracking REST
backend: `User` (log in, register, look up, list, update and delete
accounts) and `Exercise` (look up and list exercises, list the muscle
targets, list the exercises for one target, toggle a favorite, list a
user's favorites). Both are thin layers of parameterised SQL over one
relational store. The model replaces the store with three tables held as
Dafny state, and proves what the decision logic around the queries does.

- `results.dfy` (module `Results`): the error kinds `NotFound`,
  `BadRequest` and `Unauthorized`, and the `Result` and `Option` types.
- `bcrypt.dfy` (module `Bcrypt`): `Hash` and `Compare` stand for
  `bcrypt.hash` and `bcrypt.compare`. The only facts the rest of the
  model uses are that a digest accepts the password it was made from
  (`CompareAcceptsHash`) and that a digest is never the password itself
  (`HashIsNotPlaintext`).
- `collation.dfy` (module `Collation`): the string order the ordered
  queries use, and sorting without duplicates for the distinct, ordered
  target query.
- `store.dfy` (module `Store`): the row types, the class `Database` that
  holds the tables `users`, `exercises` and `favorites` as sequences of
  rows in scan order, and its invariant `Valid()`. The invariant holds the
  storage constraints: unique usernames, unique user and exercise ids,
  ids drawn from a serial counter, and unique favorite pairs. The schema is
  not part of this model; the model assumes there is no foreign key from
  favorites to the other tables. Under that assumption a favorite may name
  an exercise that a catalogue refresh removed, and `Remove` leaves the
  deleted user's favorite rows in place. A cascading key would delete
  those rows, and a restricting key would make the delete fail.
- `user_model.dfy` (module `UserModel`): `backend/models/user.js`.
- `exercise_model.dfy` (module `ExerciseModel`): `backend/models/exercise.js`.

Read queries are functions of the table values, so they cannot change
state. Operations that write (`Register`, `Update`, `Remove`,
`HandleFavorite`) are methods that take the `Database` and modify it. Each
one's `ensures` states the new tables in terms of the old ones, using a
specification function (`NewRow`, `ApplyChanges`, `WithoutUser`,
`Toggle`). The lemmas about those functions carry the properties:
the toggle is its own inverse, an update then a login works, a remove
leaves other users alone, and so on.

Each returned record has its own type (`Account`, `Listing`, `Profile`),
holding exactly the columns the query's select list or `RETURNING` clause
names. None of these types has a password field, so no returned record can
carry the password or its digest. The one exception to record types is
`getTargets`: the query returns rows of the single column `target`, and the
model returns the bare target strings (`ExerciseModel.Targets`).

Where the code and its doc comments disagree, the model follows the code:
- `register` returns `{ username, first_name, last_name, email }`, with no `is_admin`.
- `update` returns no password.
- `User.get` returns no `favorites`, and it does return `id` and `email`,
  which its doc comment does not list.
- `User.getAll` returns no `favorites` (its doc comment lists it, but the
  select names only username, first_name, last_name and email).
- `Exercise.get` returns the `id` too (its doc comment omits it, but the
  select names it).
- `handleFavorite` returns the exercise row, not `{ username, favorites[] }`.
- `getUserFavorites` fails with BadRequest exactly when no favorite row
  names the user id, not when the user is unknown as its doc comment says.
  An id no user ever had gets BadRequest, but the favorite rows a removed
  user leaves behind are still listed under that id.

## Model

| member | source | states |
|---|---|---|
| `Store.FindUser` | backend/models/user.js:21-32 | the lookup by username returns the first row with that name, and none exactly when no row has it |
| `Bcrypt.CompareAcceptsHash` | backend/models/user.js:35 | a stored digest accepts the password it was made from |
| `Bcrypt.HashIsNotPlaintext` | backend/models/user.js:60 | a digest is never the password in plain text |
| `UserModel.Authenticate` | backend/models/user.js:19-42 | succeeds iff a user of that name exists and the password matches its stored digest; the result is that user's record without a password; every failure is the same `Unauthorized` error, whether the name is unknown or the password is wrong |
| `UserModel.NewRow` | backend/models/user.js:60-72 | the inserted row has the given id and the payload's username, names and email; its password column is a digest that accepts the password and is not the password itself; is_admin takes its default and favorites is NULL |
| `UserModel.Register` | backend/models/user.js:50-76 | a taken username fails with BadRequest and changes nothing; otherwise exactly one row is appended under a fresh id, its password column holds the digest of the password, and the record returned has only username, first_name, last_name and email |
| `UserModel.RegisterThenAuthenticate` | backend/models/user.js:32-72 | after a register, logging in with the same username and password succeeds and returns the new account; the username constraint still holds |
| `UserModel.GetUser` | backend/models/user.js:85-103 | NotFound iff no row has the username; otherwise the profile (id, username, names, email, is_admin) of a row with that name |
| `Collation.LessIrreflexive` | backend/models/user.js:117 | no string sorts before itself in the code-point order |
| `Collation.LessTransitive` | backend/models/user.js:117 | the code-point order is transitive |
| `Collation.LessTotal` | backend/models/user.js:117 | any two different strings are ordered one way or the other |
| `UserModel.InsertByUsername` | backend/models/user.js:117 | inserting into a username-sorted list keeps it sorted and adds exactly that one element |
| `UserModel.SortByUsername` | backend/models/user.js:117 | the result is sorted by username and is a permutation of the input |
| `UserModel.GetAll` | backend/models/user.js:110-120 | every user is listed exactly once (as a permutation of the table's listings), ordered by username, without password; an empty table gives an empty list |
| `UserModel.PreparePassword` | backend/models/user.js:136-138 | a present, non-empty password becomes a digest that accepts it; an absent or empty one is passed on unchanged |
| `UserModel.ApplyChanges` | backend/models/user.js:140-157 | every listed column present in the payload takes its value, every absent one keeps its old value, and id and username never change; the password column changes only when the helper forwards the password key |
| `UserModel.UpdatedPasswordIsHashed` | backend/models/user.js:136-138 | a non-empty password written by update is stored as its digest, which then accepts it |
| `UserModel.UpdateEmailOnly` | backend/models/user.js:140-146 | a payload with only an email changes exactly the email column |
| `UserModel.ApplyChangesIdempotent` | backend/models/user.js:136-157 | applying the same partial update twice leaves every column but the password as once; a forwarded non-empty password is in both cases a digest that accepts it, and any other password column is the same |
| `UserModel.UpdateKeepsKeys` | backend/models/user.js:149-151 | rewriting a row in place without touching its id or username keeps the table's key constraints |
| `UserModel.Update` | backend/models/user.js:135-164 | NotFound iff no user has the name, and then nothing changes; otherwise the row with that name becomes `ApplyChanges` of itself, every other row stays as it was, and the updated record is returned without password |
| `UserModel.UpdateThenAuthenticate` | backend/models/user.js:135-157 | after an update that sets a new password, logging in with that password succeeds |
| `UserModel.WithoutUser` | backend/models/user.js:168-174 | the delete keeps exactly the rows whose username differs |
| `UserModel.WithoutAbsentUser` | backend/models/user.js:168-177 | deleting a name no row has leaves the table exactly as it was |
| `UserModel.WithoutUserKeepsKeys` | backend/models/user.js:168-174 | deleting rows keeps unique usernames, unique ids and the serial bound |
| `UserModel.Remove` | backend/models/user.js:167-178 | NotFound iff no user has the name, and then the table is unchanged; otherwise the table becomes `WithoutUser`, so exactly that user's row is removed and all other rows stay, in order |
| `UserModel.RemovedUserNotFound` | backend/models/user.js:167-178 | after a remove, looking the removed name up fails with NotFound |
| `UserModel.RemoveKeepsOtherUsers` | backend/models/user.js:167-178 | after a remove, every other name is found exactly as before |
| `ExerciseModel.Get` | backend/models/exercise.js:11-26 | a stored row with the given id, or NotFound exactly when no row has that id |
| `ExerciseModel.GetStoredRow` | backend/models/exercise.js:19-25 | under the primary key, looking up a stored row's id returns that very row |
| `ExerciseModel.GetAll` | backend/models/exercise.js:34-45 | every row of the table in scan order, each without its id |
| `Collation.InsertDistinct` | backend/models/exercise.js:55-57 | inserting into a strictly ascending list keeps it strictly ascending and adds only that element |
| `Collation.SortDistinct` | backend/models/exercise.js:55-57 | the result is strictly ascending and has exactly the elements of the input |
| `Collation.AscendingUnique` | backend/models/exercise.js:55-57 | two strictly ascending lists with the same elements are equal |
| `ExerciseModel.Targets` | backend/models/exercise.js:53-61 | each target that some exercise has appears exactly once, in strictly ascending order, and nothing else appears |
| `ExerciseModel.TargetsDetermined` | backend/models/exercise.js:55-57 | the target list depends only on which targets occur, not on the rows or their order |
| `ExerciseModel.TargetExercises` | backend/models/exercise.js:69-83 | exactly the rows whose target is the given one, each with its stored multiplicity, and no other row |
| `ExerciseModel.RemovePair` | backend/models/exercise.js:174-178 | the delete keeps exactly the favorite rows other than the given pair |
| `Store.HasUserId` | backend/models/exercise.js:138-148 | true exactly when some user row carries the id |
| `ExerciseModel.Toggle` | backend/models/exercise.js:163-186 | the pair is in the new favorites iff it was not in the old ones, and every other pair keeps its membership |
| `ExerciseModel.ToggleTwice` | backend/models/exercise.js:164-186 | toggling the same pair twice restores the favorites relation |
| `ExerciseModel.InsertThenDelete` | backend/models/exercise.js:179-186 | when the first toggle inserts, the second one restores the table row for row |
| `ExerciseModel.RemovePairKeepsUnique` | backend/models/exercise.js:174-178 | deleting a pair keeps the favorite pairs unique |
| `ExerciseModel.ToggleKeepsUnique` | backend/models/exercise.js:172-186 | the toggle keeps the favorite pairs unique |
| `ExerciseModel.HandleFavorite` | backend/models/exercise.js:136-190 | NotFound with the favorites unchanged when no user has the id, and NotFound with the favorites unchanged when the user exists but the exercise does not; otherwise the favorites become `Toggle` of the old ones, the pair's membership flips, no other pair changes, the users and exercises tables are untouched, and the stored row of that exercise is returned |
| `ExerciseModel.FavoriteIds` | backend/models/exercise.js:199-204 | an exercise id is listed iff the user has a favorite row for it, and as many times as the user has such rows |
| `ExerciseModel.RowsWithId` | backend/models/exercise.js:211-217 | exactly the stored rows with that id, each as often as it is stored |
| `ExerciseModel.FetchAll` | backend/models/exercise.js:209-221 | the flattened rows are exactly the stored rows whose id is among the listed ids |
| `ExerciseModel.FetchAllCount` | backend/models/exercise.js:209-221 | each stored row occurs in the flattened rows (times its id is listed) × (times it is stored) |
| `ExerciseModel.CopiesIsProduct` | backend/models/exercise.js:209-221 | the count `FetchAllCount` and `UserFavorites` state by repeated addition is the product of the two counts |
| `ExerciseModel.UserFavorites` | backend/models/exercise.js:198-222 | BadRequest iff the user has no favorite row; otherwise exactly the stored exercises the user has favorited, each once per matching favorite row and stored copy; with unique favorite pairs and unique exercise ids, each favorited stored exercise exactly once |
| `ExerciseModel.FetchAllAppend` | backend/models/exercise.js:209-221 | the flattened result of a concatenation of ids is the concatenation of the results |
| `ExerciseModel.DanglingIdContributesNothing` | backend/models/exercise.js:209-221 | a favorited id that no exercise has contributes nothing to the flattened result |
| `ExerciseModel.ToggleThenUserFavorites` | backend/models/exercise.js:172-221 | after a toggle, the exercise is in the user's favorites list iff it was not before |

## Left out

- The route files (`backend/routes/users.js`, `backend/routes/exercises.js`): HTTP routing, JSON-schema validation, status codes and error forwarding.
- The authorization middleware and token creation those routes import are not part of this model, so there is no session or permission logic here.
- `Exercise.refreshData`: it calls an external HTTP API and replaces the catalogue. The constructor `Store.Database` takes the catalogue as given instead.
- bcrypt internals, the salt and the work factor (from config). `Bcrypt.Hash` has a placeholder body that is not one-way, and `Compare` is modelled as equality with `Hash`. Nothing outside the module relies on more than two facts: `Compare(p, Hash(p))` (`CompareAcceptsHash`) and `Hash(p) != p` (`HashIsNotPlaintext`).
- `sqlForPartialUpdate` (`helpers/sql.js`) is not part of this model. It is unknown whether it forwards keys missing from its column map, so `Update` takes that as the parameter `forwardsUnlisted`. The only such key the payload type can carry is `password`. Other unlisted keys cannot be represented.
- UserModel.Update: requires the payload to name at least one column to write. What happens for an empty payload is decided inside `sqlForPartialUpdate`, so the model does not state it.
- UserModel.Update: the caller's payload object is rewritten in place (its password replaced by the digest, line 137). The model passes the payload by value, so this aliasing effect is not captured.
- UserModel.Update: `if (data.password)` tests JavaScript truthiness. An empty password is therefore not hashed, and when forwarded it is written as the empty string. The model keeps this behaviour and proves nothing about logging in with it.
- The `if (!result.rows)` guards in `Exercise.getAll`, `getTargets` and `getTargetExercises`: a driver that always returns a row array never triggers them, so those queries never fail in the model.
- `getUserFavorites` for a removed user: under the no-foreign-key assumption its favorite rows survive `Remove`, so the list is still returned (the doc comment at `backend/models/exercise.js:196` promises BadRequest for a user not found).
- `Promise.all` in `getUserFavorites`: the per-id queries are modelled as running one after another, in the order of the favorite rows.
- Check-then-act races in `register` and `handleFavorite` need concurrency and are outside a sequential model. The uniqueness constraints are kept as the invariant `Database.Valid()`.
- Error messages: an error is identified by its kind alone.
- UserModel.ApplyChangesIdempotent: does not promise that the password column is the same after the second application. bcrypt draws a fresh salt on every call, so writing the same password twice stores two different digests; the lemma promises only that both accept the password. The model's placeholder `Bcrypt.Hash` is deterministic and would make the rows equal, but that equality is an artefact of the placeholder.
- Favorites of a deleted user: `UserModel.Remove` touches only the users table, under the assumption of no foreign key stated above. Cascading or restricting deletes are not modelled.
- Column defaults the insert in `register` relies on are not shown. The model takes `is_admin` to default to false (`UserModel.IsAdminDefault`), `favorites` to NULL, and `id` to come from a serial counter (`Database.nextUserId`).
- `ORDER BY` uses the database's collation, which is configuration. The model orders by code point, as the C collation does.
- Ids are integers. The JavaScript layer's coercion of ids from strings is not modelled.
