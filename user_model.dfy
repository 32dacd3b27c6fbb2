/** The `User` model (backend/models/user.js): credential checks and the
    operations on the users table. Lookups are functions of the table; register,
    update and remove are methods that change `db.users`. */
module UserModel {
  import opened Results
  import opened Store
  import Bcrypt
  import Collation

  /** `{ username, first_name, last_name, email, is_admin }`, what authenticate and update return. */
  datatype Account = Account(username: string, firstName: string, lastName: string, email: string, isAdmin: bool)

  /** `{ username, first_name, last_name, email }`, what register returns and getAll lists. */
  datatype Listing = Listing(username: string, firstName: string, lastName: string, email: string)

  /** `{ id, username, first_name, last_name, email, is_admin }`, what get returns. */
  datatype Profile = Profile(id: int, username: string, firstName: string, lastName: string, email: string, isAdmin: bool)

  /** The payload register destructures. */
  datatype Registration = Registration(username: string, password: string, firstName: string, lastName: string, email: string)

  /** The payload of update: each key is present (`Some`) or absent (`None`). */
  datatype Changes = Changes(
    firstName: Option<string>,
    lastName: Option<string>,
    email: Option<string>,
    favorites: Option<string>,
    isAdmin: Option<bool>,
    password: Option<string>)

  /** The value the users.is_admin column takes when register does not set it. */
  const IsAdminDefault: bool := false

  function AccountOf(row: UserRow): Account {
    Account(row.username, row.firstName, row.lastName, row.email, row.isAdmin)
  }

  function ListingOf(row: UserRow): Listing {
    Listing(row.username, row.firstName, row.lastName, row.email)
  }

  function ProfileOf(row: UserRow): Profile {
    Profile(row.id, row.username, row.firstName, row.lastName, row.email, row.isAdmin)
  }

  // ---------------------------------------------------------------------------
  // authenticate

  /** Log in: succeeds exactly when a user of that name exists and the password
      matches its stored digest; an unknown name and a wrong password give the
      same error. The record returned has no password field. */
  function Authenticate(users: seq<UserRow>, username: string, password: string): (r: Result<Account>)
    requires UniqueUsernames(users)
    ensures r.Ok? <==> exists row :: row in users && row.username == username && Bcrypt.Compare(password, row.password)
    ensures r.Ok? ==> exists row :: row in users && row.username == username && r.value == AccountOf(row)
    ensures r.Err? ==> r == Err(Unauthorized)
  {
    match FindUser(users, username)
    case None => Err(Unauthorized)
    case Some(i) =>
      if Bcrypt.Compare(password, users[i].password) then
        Ok(AccountOf(users[i]))
      else
        assert forall row :: row in users && row.username == username ==> row == users[i] by {
          forall row | row in users && row.username == username ensures row == users[i] {
            var k :| 0 <= k < |users| && users[k] == row;
            FindUserUnique(users, k);
          }
        }
        Err(Unauthorized)
  }

  // ---------------------------------------------------------------------------
  // register

  /** The row register inserts: the password column holds the digest, and the
      columns the insert leaves out take their defaults. */
  function NewRow(id: int, reg: Registration): (r: UserRow)
    ensures r.id == id && r.username == reg.username
    ensures Bcrypt.Compare(reg.password, r.password) && r.password != reg.password
    ensures r.firstName == reg.firstName && r.lastName == reg.lastName && r.email == reg.email
    ensures r.isAdmin == IsAdminDefault && r.favorites == None
  {
    Bcrypt.CompareAcceptsHash(reg.password);
    Bcrypt.HashIsNotPlaintext(reg.password);
    UserRow(id, reg.username, Bcrypt.Hash(reg.password), reg.firstName, reg.lastName, reg.email, IsAdminDefault, None)
  }

  /** Register a user: a taken username is refused and nothing changes;
      otherwise one row is appended, holding the digest of the password and
      never the password itself, under a fresh id. */
  method Register(db: Database, reg: Registration) returns (r: Result<Listing>)
    requires db.Valid()
    modifies db
    ensures db.Valid()
    ensures db.exercises == old(db.exercises) && db.favorites == old(db.favorites)
    ensures (exists row :: row in old(db.users) && row.username == reg.username) ==>
              && r == Err(BadRequest)
              && db.users == old(db.users)
              && db.nextUserId == old(db.nextUserId)
    ensures (forall row :: row in old(db.users) ==> row.username != reg.username) ==>
              && db.users == old(db.users) + [NewRow(old(db.nextUserId), reg)]
              && db.users[|old(db.users)|].password == Bcrypt.Hash(reg.password)
              && db.nextUserId == old(db.nextUserId) + 1
              && r == Ok(Listing(reg.username, reg.firstName, reg.lastName, reg.email))
  {
    var duplicate := FindUser(db.users, reg.username);
    if duplicate.Some? {
      return Err(BadRequest);
    }
    var row := NewRow(db.nextUserId, reg);
    db.users := db.users + [row];
    db.nextUserId := db.nextUserId + 1;
    r := Ok(ListingOf(row));
  }

  /** After a successful register, logging in with the same name and password succeeds. */
  lemma RegisterThenAuthenticate(users: seq<UserRow>, id: int, reg: Registration)
    requires UniqueUsernames(users)
    requires forall row :: row in users ==> row.username != reg.username
    ensures UniqueUsernames(users + [NewRow(id, reg)])
    ensures Authenticate(users + [NewRow(id, reg)], reg.username, reg.password)
         == Ok(Account(reg.username, reg.firstName, reg.lastName, reg.email, IsAdminDefault))
  {
    var after := users + [NewRow(id, reg)];
    assert after[|users|] == NewRow(id, reg);
    Bcrypt.CompareAcceptsHash(reg.password);
    assert NewRow(id, reg) in after;
  }

  // ---------------------------------------------------------------------------
  // get and getAll

  /** Look a user up by name; fails with NotFound when there is none. */
  function GetUser(users: seq<UserRow>, username: string): (r: Result<Profile>)
    ensures r.Err? <==> forall row :: row in users ==> row.username != username
    ensures r.Err? ==> r == Err(NotFound)
    ensures r.Ok? ==> exists row :: row in users && row.username == username && r.value == ProfileOf(row)
  {
    match FindUser(users, username)
    case None => Err(NotFound)
    case Some(i) => Ok(ProfileOf(users[i]))
  }

  /** No listing comes after a later one in username order. */
  ghost predicate SortedByUsername(s: seq<Listing>) {
    forall i, j :: 0 <= i < j < |s| ==> !Collation.Less(s[j].username, s[i].username)
  }

  lemma SortedCons(x: Listing, s: seq<Listing>)
    requires SortedByUsername(s)
    requires forall y :: y in s ==> !Collation.Less(y.username, x.username)
    ensures SortedByUsername([x] + s)
  {
    var r := [x] + s;
    forall i, j | 0 <= i < j < |r|
      ensures !Collation.Less(r[j].username, r[i].username)
    {
      if i == 0 {
        assert r[j] in s;
      } else {
        assert r[i] == s[i - 1] && r[j] == s[j - 1];
      }
    }
  }

  /** `x` inserted into a username-sorted sequence. */
  function InsertByUsername(s: seq<Listing>, x: Listing): (r: seq<Listing>)
    requires SortedByUsername(s)
    ensures SortedByUsername(r)
    ensures multiset(r) == multiset(s) + multiset{x}
    decreases |s|
  {
    if |s| == 0 then [x]
    else if !Collation.Less(s[0].username, x.username) then
      assert forall y :: y in s ==> !Collation.Less(y.username, x.username) by {
        forall y | y in s ensures !Collation.Less(y.username, x.username) {
          var k :| 0 <= k < |s| && s[k] == y;
          if k > 0 {
            Collation.NotLessTransitive(x.username, s[0].username, y.username);
          }
        }
      }
      SortedCons(x, s);
      [x] + s
    else
      var t := InsertByUsername(s[1..], x);
      assert s == [s[0]] + s[1..];
      assert forall y :: y in t ==> !Collation.Less(y.username, s[0].username) by {
        forall y | y in t ensures !Collation.Less(y.username, s[0].username) {
          assert y in multiset(t);
          if y == x {
            Collation.LessAsymmetric(s[0].username, x.username);
          } else {
            assert y in multiset(s[1..]);
            var k :| 0 <= k < |s[1..]| && s[1..][k] == y;
            assert s[k + 1] == y;
          }
        }
      }
      SortedCons(s[0], t);
      [s[0]] + t
  }

  /** Insertion sort by username. */
  function SortByUsername(s: seq<Listing>): (r: seq<Listing>)
    ensures SortedByUsername(r)
    ensures multiset(r) == multiset(s)
  {
    if |s| == 0 then []
    else
      assert s == [s[0]] + s[1..];
      InsertByUsername(SortByUsername(s[1..]), s[0])
  }

  /** The listing of every row, in scan order. */
  function ListingsOf(users: seq<UserRow>): (r: seq<Listing>)
    ensures |r| == |users|
    ensures forall i :: 0 <= i < |users| ==> r[i] == ListingOf(users[i])
  {
    seq(|users|, i requires 0 <= i < |users| => ListingOf(users[i]))
  }

  /** All users, ordered by username, each row listed once and without its
      password; an empty table gives an empty list. */
  function GetAll(users: seq<UserRow>): (r: seq<Listing>)
    ensures SortedByUsername(r)
    ensures multiset(r) == multiset(ListingsOf(users))
    ensures |r| == |users|
    ensures forall l :: l in r <==> exists row :: row in users && l == ListingOf(row)
  {
    var all := ListingsOf(users);
    var r := SortByUsername(all);
    assert |r| == |multiset(r)| == |multiset(all)| == |all|;
    forall l ensures l in r <==> exists row :: row in users && l == ListingOf(row) {
      assert l in r <==> l in multiset(r);
      assert l in all <==> l in multiset(all);
      if l in all {
        var k :| 0 <= k < |all| && all[k] == l;
        assert users[k] in users;
      }
      if exists row :: row in users && l == ListingOf(row) {
        var row :| row in users && l == ListingOf(row);
        var k :| 0 <= k < |users| && users[k] == row;
        assert all[k] == l;
      }
    }
    r
  }

  // ---------------------------------------------------------------------------
  // update

  /** The password rewrite before the update (backend/models/user.js:136-138): a present,
      non-empty (truthy) password is replaced by its digest; an absent or empty one is kept. */
  function PreparePassword(password: Option<string>): (r: Option<string>)
    ensures r.Some? <==> password.Some?
    ensures password.Some? && password.value != "" ==> Bcrypt.Compare(password.value, r.value)
    ensures password == None || password == Some("") ==> r == password
  {
    if password.Some? && password.value != "" then
      Bcrypt.CompareAcceptsHash(password.value);
      Some(Bcrypt.Hash(password.value))
    else password
  }

  /** The payload names at least one column to write. `forwardsUnlisted` says
      whether the partial-update helper passes the `password` key, which its
      column map does not list, through to the statement. */
  predicate SetsSomeColumn(data: Changes, forwardsUnlisted: bool) {
    || data.firstName.Some?
    || data.lastName.Some?
    || data.email.Some?
    || data.favorites.Some?
    || data.isAdmin.Some?
    || (forwardsUnlisted && data.password.Some?)
  }

  /** The row after the partial update (backend/models/user.js:140-157): every listed
      column present in the payload takes its value, every absent one keeps
      its value, and the id and username never change. */
  function ApplyChanges(row: UserRow, data: Changes, forwardsUnlisted: bool): (r: UserRow)
    ensures r.id == row.id && r.username == row.username
    ensures data.firstName.Some? ==> r.firstName == data.firstName.value
    ensures data.firstName.None? ==> r.firstName == row.firstName
    ensures data.lastName.Some? ==> r.lastName == data.lastName.value
    ensures data.lastName.None? ==> r.lastName == row.lastName
    ensures data.email.Some? ==> r.email == data.email.value
    ensures data.email.None? ==> r.email == row.email
    ensures data.favorites.Some? ==> r.favorites == data.favorites
    ensures data.favorites.None? ==> r.favorites == row.favorites
    ensures data.isAdmin.Some? ==> r.isAdmin == data.isAdmin.value
    ensures data.isAdmin.None? ==> r.isAdmin == row.isAdmin
    ensures !forwardsUnlisted || data.password.None? ==> r.password == row.password
  {
    var password := if forwardsUnlisted then PreparePassword(data.password).GetOr(row.password) else row.password;
    row.(
      firstName := data.firstName.GetOr(row.firstName),
      lastName := data.lastName.GetOr(row.lastName),
      email := data.email.GetOr(row.email),
      favorites := if data.favorites.Some? then data.favorites else row.favorites,
      isAdmin := data.isAdmin.GetOr(row.isAdmin),
      password := password)
  }

  /** A password written by update is stored as its digest, so it then logs in. */
  lemma UpdatedPasswordIsHashed(row: UserRow, data: Changes, password: string)
    requires data.password == Some(password) && password != ""
    ensures ApplyChanges(row, data, true).password == Bcrypt.Hash(password)
    ensures Bcrypt.Compare(password, ApplyChanges(row, data, true).password)
  {
    Bcrypt.CompareAcceptsHash(password);
  }

  /** A payload holding only an email changes exactly the email column. */
  lemma UpdateEmailOnly(row: UserRow, email: string, forwardsUnlisted: bool)
    ensures ApplyChanges(row, Changes(None, None, Some(email), None, None, None), forwardsUnlisted) == row.(email := email)
  {
  }

  /** Applying the same payload twice leaves the row as applying it once, up
      to the salt of the digest: every column but the password is the same,
      a forwarded non-empty password is in both cases a digest that accepts
      it, and any other password column is the same. */
  lemma ApplyChangesIdempotent(row: UserRow, data: Changes, forwardsUnlisted: bool)
    ensures var once := ApplyChanges(row, data, forwardsUnlisted);
            var twice := ApplyChanges(once, data, forwardsUnlisted);
            && twice.(password := once.password) == once
            && (if forwardsUnlisted && data.password.Some? && data.password.value != "" then
                  Bcrypt.Compare(data.password.value, once.password)
                  && Bcrypt.Compare(data.password.value, twice.password)
                else twice.password == once.password)
  {
  }

  /** Rewriting rows in place without touching their ids or usernames keeps both unique. */
  lemma UpdateKeepsKeys(users: seq<UserRow>, i: nat, row: UserRow, next: int)
    requires i < |users|
    requires UniqueUsernames(users) && UniqueUserIds(users) && IdsBelow(users, next)
    requires row.id == users[i].id && row.username == users[i].username
    ensures UniqueUsernames(users[i := row]) && UniqueUserIds(users[i := row]) && IdsBelow(users[i := row], next)
  {
    var after := users[i := row];
    forall j, k | 0 <= j < k < |after|
      ensures after[j].username != after[k].username && after[j].id != after[k].id
    {
      assert after[j].username == users[j].username && after[j].id == users[j].id;
      assert after[k].username == users[k].username && after[k].id == users[k].id;
    }
  }

  /** Update the user named `username` with the supplied columns: NotFound
      when there is none; otherwise that row, and no other, changes as
      ApplyChanges says, and the updated record is returned without its
      password. */
  method Update(db: Database, username: string, data: Changes, forwardsUnlisted: bool) returns (r: Result<Account>)
    requires db.Valid()
    requires SetsSomeColumn(data, forwardsUnlisted)
    modifies db
    ensures db.Valid()
    ensures db.exercises == old(db.exercises) && db.favorites == old(db.favorites)
    ensures db.nextUserId == old(db.nextUserId)
    ensures |db.users| == |old(db.users)|
    ensures forall i :: 0 <= i < |db.users| ==>
              db.users[i] == if old(db.users)[i].username == username
                             then ApplyChanges(old(db.users)[i], data, forwardsUnlisted)
                             else old(db.users)[i]
    ensures r.Err? <==> forall row :: row in old(db.users) ==> row.username != username
    ensures r.Err? ==> r == Err(NotFound) && db.users == old(db.users)
    ensures r.Ok? ==> exists row :: row in old(db.users) && row.username == username
                                     && r.value == AccountOf(ApplyChanges(row, data, forwardsUnlisted))
  {
    var found := FindUser(db.users, username);
    if found.None? {
      return Err(NotFound);
    }
    var i := found.value;
    ghost var before := db.users;
    var row := ApplyChanges(db.users[i], data, forwardsUnlisted);
    UpdateKeepsKeys(db.users, i, row, db.nextUserId);
    db.users := db.users[i := row];
    forall j | 0 <= j < |db.users| && before[j].username == username
      ensures j == i
    {
      FindUserUnique(before, j);
    }
    assert before[i] in before;
    r := Ok(AccountOf(row));
  }

  /** Updating with a new password and then logging in with it succeeds. */
  lemma UpdateThenAuthenticate(users: seq<UserRow>, i: nat, data: Changes, password: string)
    requires UniqueUsernames(users) && i < |users|
    requires data.password == Some(password) && password != ""
    ensures UniqueUsernames(users[i := ApplyChanges(users[i], data, true)])
    ensures Authenticate(users[i := ApplyChanges(users[i], data, true)], users[i].username, password).Ok?
  {
    var row := ApplyChanges(users[i], data, true);
    var after := users[i := row];
    forall j, k | 0 <= j < k < |after|
      ensures after[j].username != after[k].username
    {
      assert after[j].username == users[j].username;
      assert after[k].username == users[k].username;
    }
    UpdatedPasswordIsHashed(users[i], data, password);
    assert after[i] == row && row in after;
  }

  // ---------------------------------------------------------------------------
  // remove

  /** The delete by username (backend/models/user.js:168-174): the table without that user's rows. */
  function WithoutUser(users: seq<UserRow>, username: string): (r: seq<UserRow>)
    ensures forall row :: row in r <==> row in users && row.username != username
    ensures |r| <= |users|
  {
    if |users| == 0 then []
    else if users[0].username == username then WithoutUser(users[1..], username)
    else [users[0]] + WithoutUser(users[1..], username)
  }

  /** Deleting a name no row has leaves the table exactly as it was. */
  lemma {:induction false} WithoutAbsentUser(users: seq<UserRow>, username: string)
    requires forall row :: row in users ==> row.username != username
    ensures WithoutUser(users, username) == users
  {
    if |users| > 0 {
      assert users[0] in users;
      WithoutAbsentUser(users[1..], username);
      assert users == [users[0]] + users[1..];
    }
  }

  /** A row unlike every row of a table may be put in front of it. */
  lemma ConsKeepsKeys(x: UserRow, t: seq<UserRow>, next: int)
    requires UniqueUsernames(t) && UniqueUserIds(t) && IdsBelow(t, next)
    requires x.id < next
    requires forall y :: y in t ==> y.username != x.username && y.id != x.id
    ensures UniqueUsernames([x] + t) && UniqueUserIds([x] + t) && IdsBelow([x] + t, next)
  {
    var r := [x] + t;
    forall j, k | 0 <= j < k < |r|
      ensures r[j].username != r[k].username && r[j].id != r[k].id
    {
      assert r[k] == t[k - 1];
      if j > 0 {
        assert r[j] == t[j - 1];
      } else {
        assert r[k] in t;
      }
    }
  }

  /** Deleting rows keeps the storage constraints. */
  lemma {:induction false} WithoutUserKeepsKeys(users: seq<UserRow>, username: string, next: int)
    requires UniqueUsernames(users) && UniqueUserIds(users) && IdsBelow(users, next)
    ensures var r := WithoutUser(users, username);
            UniqueUsernames(r) && UniqueUserIds(r) && IdsBelow(r, next)
  {
    if |users| > 0 {
      var rest := users[1..];
      assert UniqueUsernames(rest) && UniqueUserIds(rest) && IdsBelow(rest, next) by {
        forall j | 0 <= j < |rest| ensures rest[j] == users[j + 1] { }
      }
      WithoutUserKeepsKeys(rest, username, next);
      var t := WithoutUser(rest, username);
      if users[0].username != username {
        forall y | y in t
          ensures y.username != users[0].username && y.id != users[0].id
        {
          var m :| 0 <= m < |rest| && rest[m] == y;
          assert users[m + 1] == y;
        }
        ConsKeepsKeys(users[0], t, next);
      }
    }
  }

  /** Remove a user: NotFound when there is no such user and nothing changes;
      otherwise exactly that user's row goes and every other row stays, in
      order. */
  method Remove(db: Database, username: string) returns (r: Result<()>)
    requires db.Valid()
    modifies db
    ensures db.Valid()
    ensures db.exercises == old(db.exercises) && db.favorites == old(db.favorites)
    ensures db.nextUserId == old(db.nextUserId)
    ensures db.users == WithoutUser(old(db.users), username)
    ensures r.Err? <==> forall row :: row in old(db.users) ==> row.username != username
    ensures r.Err? ==> r == Err(NotFound) && db.users == old(db.users)
  {
    var found := FindUser(db.users, username);
    WithoutUserKeepsKeys(db.users, username, db.nextUserId);
    if found.None? {
      WithoutAbsentUser(db.users, username);
      return Err(NotFound);
    }
    assert db.users[found.value] in db.users;
    db.users := WithoutUser(db.users, username);
    r := Ok(());
  }

  /** After a remove, the removed name is not found. */
  lemma RemovedUserNotFound(users: seq<UserRow>, username: string)
    ensures GetUser(WithoutUser(users, username), username) == Err(NotFound)
  {
  }

  /** After a remove, every other name is found exactly as before. */
  lemma {:induction false} RemoveKeepsOtherUsers(users: seq<UserRow>, username: string, other: string)
    requires other != username
    ensures GetUser(WithoutUser(users, username), other) == GetUser(users, other)
  {
    if |users| > 0 {
      RemoveKeepsOtherUsers(users[1..], username, other);
    }
  }
}
