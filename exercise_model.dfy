/** The `Exercise` model (backend/models/exercise.js): read queries over the
    exercises and user_favorites tables, and the favorites toggle, a method that
    changes `db.favorites`. */
module ExerciseModel {
  import opened Results
  import opened Store
  import Collation

  // ---------------------------------------------------------------------------
  // get

  /** Lookup by id, keeping the first row returned (backend/models/exercise.js:11-26):
      a stored row with that id, or NotFound when there is none. */
  function Get(exercises: seq<ExerciseRow>, id: int): (r: Result<ExerciseRow>)
    ensures r.Ok? ==> r.value in exercises && r.value.id == id
    ensures r.Err? <==> forall x :: x in exercises ==> x.id != id
    ensures r.Err? ==> r == Err(NotFound)
  {
    if |exercises| == 0 then Err(NotFound)
    else if exercises[0].id == id then Ok(exercises[0])
    else Get(exercises[1..], id)
  }

  /** Under the primary key, looking up a stored row's id gives back that row. */
  lemma GetStoredRow(exercises: seq<ExerciseRow>, x: ExerciseRow)
    requires UniqueExerciseIds(exercises) && x in exercises
    ensures Get(exercises, x.id) == Ok(x)
  {
    var y := Get(exercises, x.id).value;
    var i :| 0 <= i < |exercises| && exercises[i] == x;
    var j :| 0 <= j < |exercises| && exercises[j] == y;
    assert i == j;
  }

  // ---------------------------------------------------------------------------
  // getAll

  /** Every row of the table in scan order, without its id. */
  function GetAll(exercises: seq<ExerciseRow>): (r: seq<ExerciseData>)
    ensures |r| == |exercises|
    ensures forall i :: 0 <= i < |exercises| ==> r[i] == exercises[i].data
  {
    seq(|exercises|, i requires 0 <= i < |exercises| => exercises[i].data)
  }

  // ---------------------------------------------------------------------------
  // getTargets

  /** The target column, in scan order. */
  function TargetColumn(exercises: seq<ExerciseRow>): (ts: seq<string>)
    ensures |ts| == |exercises|
    ensures forall i :: 0 <= i < |exercises| ==> ts[i] == exercises[i].data.target
  {
    seq(|exercises|, i requires 0 <= i < |exercises| => exercises[i].data.target)
  }

  /** Some row of the catalogue has target `t`. */
  ghost predicate HasTarget(exercises: seq<ExerciseRow>, t: string) {
    exists x :: x in exercises && x.data.target == t
  }

  /** The distinct targets, ordered (backend/models/exercise.js:53-61): each target some
      row has, exactly once, in ascending order. */
  function Targets(exercises: seq<ExerciseRow>): (r: seq<string>)
    ensures Collation.StrictlyAscending(r)
    ensures forall t :: t in r <==> HasTarget(exercises, t)
  {
    var column := TargetColumn(exercises);
    var r := Collation.SortDistinct(column);
    forall t ensures t in column <==> exists x :: x in exercises && x.data.target == t {
      if t in column {
        var k :| 0 <= k < |column| && column[k] == t;
        assert exercises[k] in exercises;
      }
      if exists x :: x in exercises && x.data.target == t {
        var x :| x in exercises && x.data.target == t;
        var k :| 0 <= k < |exercises| && exercises[k] == x;
        assert column[k] == t;
      }
    }
    r
  }

  /** The list of targets depends only on which targets occur: two catalogues
      with the same targets list them identically, whatever their rows and
      scan order. */
  lemma TargetsDetermined(a: seq<ExerciseRow>, b: seq<ExerciseRow>)
    requires forall t :: HasTarget(a, t) <==> HasTarget(b, t)
    ensures Targets(a) == Targets(b)
  {
    Collation.AscendingUnique(Targets(a), Targets(b));
  }

  // ---------------------------------------------------------------------------
  // getTargetExercises

  /** The rows filtered by target (backend/models/exercise.js:69-83): the rows with that target,
      each as often as it is stored, and no other row. */
  function TargetExercises(exercises: seq<ExerciseRow>, target: string): (r: seq<ExerciseRow>)
    ensures forall x :: x in r <==> x in exercises && x.data.target == target
    ensures forall x :: multiset(r)[x] == if x.data.target == target then multiset(exercises)[x] else 0
  {
    if |exercises| == 0 then []
    else
      assert exercises == [exercises[0]] + exercises[1..];
      var rest := TargetExercises(exercises[1..], target);
      if exercises[0].data.target == target then [exercises[0]] + rest else rest
  }

  // ---------------------------------------------------------------------------
  // handleFavorite

  /** The favorites table with every row for `pair` deleted (backend/models/exercise.js:174-178). */
  function RemovePair(favorites: seq<Favorite>, pair: Favorite): (r: seq<Favorite>)
    ensures forall q :: q in r <==> q in favorites && q != pair
  {
    if |favorites| == 0 then []
    else if favorites[0] == pair then RemovePair(favorites[1..], pair)
    else [favorites[0]] + RemovePair(favorites[1..], pair)
  }

  /** The favorites table after the toggle's check-then-write: the pair is
      deleted when a row for it exists and inserted otherwise. */
  function Toggle(favorites: seq<Favorite>, pair: Favorite): (r: seq<Favorite>)
    ensures pair in r <==> pair !in favorites
    ensures forall q :: q != pair ==> (q in r <==> q in favorites)
  {
    if pair in favorites then RemovePair(favorites, pair) else favorites + [pair]
  }

  /** Toggling the same pair twice restores the relation. */
  lemma ToggleTwice(favorites: seq<Favorite>, pair: Favorite)
    ensures forall q :: q in Toggle(Toggle(favorites, pair), pair) <==> q in favorites
  {
  }

  /** Deleting a pair that was just appended gives back the table itself. */
  lemma {:induction false} RemoveAppended(favorites: seq<Favorite>, pair: Favorite)
    requires pair !in favorites
    ensures RemovePair(favorites + [pair], pair) == favorites
  {
    if |favorites| == 0 {
      assert favorites + [pair] == [pair];
    } else {
      assert (favorites + [pair])[1..] == favorites[1..] + [pair];
      RemoveAppended(favorites[1..], pair);
    }
  }

  /** When the first toggle inserts, the second one restores the table row for row. */
  lemma InsertThenDelete(favorites: seq<Favorite>, pair: Favorite)
    requires pair !in favorites
    ensures Toggle(Toggle(favorites, pair), pair) == favorites
  {
    RemoveAppended(favorites, pair);
  }

  /** Deleting rows keeps the pairs unique. */
  lemma {:induction false} RemovePairKeepsUnique(favorites: seq<Favorite>, pair: Favorite)
    requires NoDuplicates(favorites)
    ensures NoDuplicates(RemovePair(favorites, pair))
  {
    if |favorites| > 0 {
      var rest := favorites[1..];
      assert NoDuplicates(rest) by {
        forall j | 0 <= j < |rest| ensures rest[j] == favorites[j + 1] { }
      }
      RemovePairKeepsUnique(rest, pair);
      if favorites[0] != pair {
        var t := RemovePair(rest, pair);
        var r := [favorites[0]] + t;
        assert favorites[0] !in rest;
        forall j, k | 0 <= j < k < |r| ensures r[j] != r[k] {
          assert r[k] == t[k - 1] && r[k] in t;
          if j > 0 {
            assert r[j] == t[j - 1];
          }
        }
      }
    }
  }

  /** The toggle keeps the pairs unique. */
  lemma ToggleKeepsUnique(favorites: seq<Favorite>, pair: Favorite)
    requires NoDuplicates(favorites)
    ensures NoDuplicates(Toggle(favorites, pair))
  {
    if pair in favorites {
      RemovePairKeepsUnique(favorites, pair);
    } else {
      var r := favorites + [pair];
      forall j, k | 0 <= j < k < |r| ensures r[j] != r[k] {
        if k == |favorites| {
          assert r[j] in favorites;
        }
      }
    }
  }

  /** Favorite or un-favorite exercise `exerciseId` for user `userId`.
      NotFound, with nothing changed, when no user has that id, and likewise
      when the user exists but the exercise does not. Otherwise the pair's
      membership flips, nothing else changes, and the exercise row is returned. */
  method HandleFavorite(db: Database, userId: int, exerciseId: int) returns (r: Result<ExerciseRow>)
    requires db.Valid()
    modifies db
    ensures db.Valid()
    ensures db.users == old(db.users) && db.exercises == old(db.exercises)
    ensures db.nextUserId == old(db.nextUserId)
    ensures !HasUserId(old(db.users), userId) ==>
              r == Err(NotFound) && db.favorites == old(db.favorites)
    ensures HasUserId(old(db.users), userId) && Get(old(db.exercises), exerciseId).Err? ==>
              r == Err(NotFound) && db.favorites == old(db.favorites)
    ensures HasUserId(old(db.users), userId) && Get(old(db.exercises), exerciseId).Ok? ==>
              && db.favorites == Toggle(old(db.favorites), Favorite(userId, exerciseId))
              && (Favorite(userId, exerciseId) in db.favorites <==> Favorite(userId, exerciseId) !in old(db.favorites))
              && (forall q :: q != Favorite(userId, exerciseId) ==> (q in db.favorites <==> q in old(db.favorites)))
              && r == Get(old(db.exercises), exerciseId)
              && (forall x :: x in old(db.exercises) && x.id == exerciseId ==> r == Ok(x))
  {
    if !HasUserId(db.users, userId) {
      return Err(NotFound);
    }
    var exercise := Get(db.exercises, exerciseId);
    if exercise.Err? {
      return Err(NotFound);
    }
    var pair := Favorite(userId, exerciseId);
    ToggleKeepsUnique(db.favorites, pair);
    if pair in db.favorites {
      db.favorites := RemovePair(db.favorites, pair);
    } else {
      db.favorites := db.favorites + [pair];
    }
    r := Get(db.exercises, exerciseId);
    forall x | x in db.exercises && x.id == exerciseId ensures r == Ok(x) {
      GetStoredRow(db.exercises, x);
    }
  }

  // ---------------------------------------------------------------------------
  // getUserFavorites

  /** The exercise ids of the user's favorite rows, in scan order (backend/models/exercise.js:199-204). */
  function FavoriteIds(favorites: seq<Favorite>, userId: int): (ids: seq<int>)
    ensures forall e :: e in ids <==> Favorite(userId, e) in favorites
    ensures forall e :: multiset(ids)[e] == multiset(favorites)[Favorite(userId, e)]
  {
    if |favorites| == 0 then []
    else
      assert favorites == [favorites[0]] + favorites[1..];
      (if favorites[0].userId == userId then [favorites[0].exerciseId] else [])
      + FavoriteIds(favorites[1..], userId)
  }

  /** The per-id fetch inside the favorites list (backend/models/exercise.js:211-217): the rows with that id. */
  function RowsWithId(exercises: seq<ExerciseRow>, id: int): (rows: seq<ExerciseRow>)
    ensures forall x :: x in rows <==> x in exercises && x.id == id
    ensures forall x :: multiset(rows)[x] == if x.id == id then multiset(exercises)[x] else 0
  {
    if |exercises| == 0 then []
    else
      assert exercises == [exercises[0]] + exercises[1..];
      (if exercises[0].id == id then [exercises[0]] else []) + RowsWithId(exercises[1..], id)
  }

  /** The per-id fetches flattened, run one id after the other
      (backend/models/exercise.js:209-221). */
  function FetchAll(exercises: seq<ExerciseRow>, ids: seq<int>): (rows: seq<ExerciseRow>)
    ensures forall x :: x in rows <==> x in exercises && x.id in ids
  {
    if |ids| == 0 then [] else RowsWithId(exercises, ids[0]) + FetchAll(exercises, ids[1..])
  }

  /** A stored row appears in the flattened fetch once for each time its id
      is listed and each time it is stored. */
  lemma {:induction false} FetchAllCount(exercises: seq<ExerciseRow>, ids: seq<int>)
    ensures forall x :: multiset(FetchAll(exercises, ids))[x] == Copies(multiset(ids)[x.id], multiset(exercises)[x])
  {
    if |ids| > 0 {
      var head, rest := RowsWithId(exercises, ids[0]), FetchAll(exercises, ids[1..]);
      assert ids == [ids[0]] + ids[1..];
      FetchAllCount(exercises, ids[1..]);
      forall x: ExerciseRow ensures multiset(head + rest)[x] == Copies(multiset(ids)[x.id], multiset(exercises)[x]) {
        assert multiset(ids)[x.id] == (if x.id == ids[0] then 1 else 0) + multiset(ids[1..])[x.id];
        CopiesStep(head, rest, x, x.id == ids[0], multiset(ids[1..])[x.id], multiset(exercises)[x]);
      }
    }
  }

  /** `m` listings of a row stored `n` times yield `m * n` copies of it, written
      as repeated addition so that counting stays linear. */
  function Copies(m: nat, n: nat): nat {
    if m == 0 then 0 else n + Copies(m - 1, n)
  }

  /** One more listing of an id adds the rows stored under it once more. */
  lemma CopiesStep(head: seq<ExerciseRow>, rest: seq<ExerciseRow>, x: ExerciseRow, listed: bool, k: nat, n: nat)
    requires multiset(head)[x] == if listed then n else 0
    requires multiset(rest)[x] == Copies(k, n)
    ensures multiset(head + rest)[x] == Copies((if listed then 1 else 0) + k, n)
  {
  }

  /** `Copies` is the product of its arguments. */
  lemma {:induction false} CopiesIsProduct(m: nat, n: nat)
    ensures Copies(m, n) == m * n
  {
    if m > 0 {
      CopiesIsProduct(m - 1, n);
    }
  }

  /** In a table without duplicate rows every row occurs once. */
  lemma {:induction false} DistinctCount<T>(s: seq<T>)
    requires forall i, j :: 0 <= i < j < |s| ==> s[i] != s[j]
    ensures forall x :: multiset(s)[x] == if x in s then 1 else 0
  {
    if |s| > 0 {
      assert s == [s[0]] + s[1..];
      assert s[0] !in s[1..] by {
        forall k | 0 <= k < |s[1..]| ensures s[1..][k] != s[0] {
          assert s[1..][k] == s[k + 1];
        }
      }
      assert forall i, j :: 0 <= i < j < |s[1..]| ==> s[1..][i] != s[1..][j] by {
        forall i, j | 0 <= i < j < |s[1..]| ensures s[1..][i] != s[1..][j] {
          assert s[1..][i] == s[i + 1] && s[1..][j] == s[j + 1];
        }
      }
      DistinctCount(s[1..]);
    }
  }

  /** The exercises user `userId` has favorited. BadRequest exactly when the
      user has no favorite row; otherwise the stored rows whose id the user
      favorited, and no other row, each once per favorite row naming its id
      and per copy stored; under the two keys, every such row exactly once. */
  function UserFavorites(favorites: seq<Favorite>, exercises: seq<ExerciseRow>, userId: int): (r: Result<seq<ExerciseRow>>)
    ensures r.Err? <==> forall f :: f in favorites ==> f.userId != userId
    ensures r.Err? ==> r == Err(BadRequest)
    ensures r.Ok? ==> forall x :: x in r.value <==> x in exercises && Favorite(userId, x.id) in favorites
    ensures r.Ok? ==> forall x :: multiset(r.value)[x] == Copies(multiset(favorites)[Favorite(userId, x.id)], multiset(exercises)[x])
    ensures r.Ok? && NoDuplicates(favorites) && UniqueExerciseIds(exercises) ==>
              forall x :: multiset(r.value)[x] == if x in exercises && Favorite(userId, x.id) in favorites then 1 else 0
  {
    var ids := FavoriteIds(favorites, userId);
    assert |ids| == 0 <==> forall f :: f in favorites ==> f.userId != userId by {
      if exists f :: f in favorites && f.userId == userId {
        var f :| f in favorites && f.userId == userId;
        assert f == Favorite(userId, f.exerciseId);
        assert f.exerciseId in ids;
      }
      if |ids| > 0 {
        assert ids[0] in ids;
        assert Favorite(userId, ids[0]) in favorites;
      }
    }
    if |ids| == 0 then Err(BadRequest)
    else
      var rows := FetchAll(exercises, ids);
      FetchAllCount(exercises, ids);
      assert NoDuplicates(favorites) && UniqueExerciseIds(exercises) ==>
               forall x :: multiset(rows)[x] == if x in exercises && Favorite(userId, x.id) in favorites then 1 else 0 by {
        if NoDuplicates(favorites) && UniqueExerciseIds(exercises) {
          DistinctCount(favorites);
          DistinctCount(exercises);
        }
      }
      Ok(rows)
  }

  /** Fetching a concatenation of ids concatenates the fetched rows. */
  lemma {:induction false} FetchAllAppend(exercises: seq<ExerciseRow>, a: seq<int>, b: seq<int>)
    ensures FetchAll(exercises, a + b) == FetchAll(exercises, a) + FetchAll(exercises, b)
  {
    if |a| > 0 {
      assert (a + b)[0] == a[0] && (a + b)[1..] == a[1..] + b;
      FetchAllAppend(exercises, a[1..], b);
    } else {
      assert a + b == b;
    }
  }

  /** An id no exercise has fetches no row. */
  lemma NoRowsForDanglingId(exercises: seq<ExerciseRow>, id: int)
    requires forall x :: x in exercises ==> x.id != id
    ensures RowsWithId(exercises, id) == []
  {
    var rows := RowsWithId(exercises, id);
    assert forall x :: x !in rows;
  }

  /** A favorited id that no exercise has (left behind by a catalogue refresh)
      contributes nothing: the result is as if it were not there. */
  lemma DanglingIdContributesNothing(exercises: seq<ExerciseRow>, ids: seq<int>, k: nat)
    requires k < |ids|
    requires forall x :: x in exercises ==> x.id != ids[k]
    ensures FetchAll(exercises, ids) == FetchAll(exercises, ids[..k] + ids[k + 1..])
  {
    var before, after := ids[..k], ids[k + 1..];
    var tail := [ids[k]] + after;
    assert ids == before + tail;
    assert tail[0] == ids[k] && tail[1..] == after;
    NoRowsForDanglingId(exercises, ids[k]);
    assert FetchAll(exercises, tail) == FetchAll(exercises, after);
    FetchAllAppend(exercises, before, tail);
    FetchAllAppend(exercises, before, after);
  }

  /** Toggling a favorite shows up in the user's favorites list: the exercise's
      row is listed afterwards exactly when it was not listed before. */
  lemma ToggleThenUserFavorites(favorites: seq<Favorite>, exercises: seq<ExerciseRow>, userId: int, x: ExerciseRow)
    requires x in exercises
    ensures var after := UserFavorites(Toggle(favorites, Favorite(userId, x.id)), exercises, userId);
            var before := UserFavorites(favorites, exercises, userId);
            (after.Ok? && x in after.value) <==> !(before.Ok? && x in before.value)
  {
  }
}
