/**
 * Accounts: the `User` table, username generation, registration and login
 * (backend/users.py, and the `User` model of backend/app.py:26-31).
 */
module Users {
  import opened Wrappers
  import opened Names

  type UserId = string

  /** A row of the `User` table. */
  datatype User = User(id: UserId, fullName: string, email: string, username: string, passwordHash: string)

  /** The columns the code looks users up by. */
  datatype Column = Id | Email | Username

  function Field(u: User, c: Column): string {
    match c
    case Id => u.id
    case Email => u.email
    case Username => u.username
  }

  /** `User.query.filter_by(<c>=key).first()`: the first row whose column `c` holds `key`. */
  function Find(rows: seq<User>, c: Column, key: string): (r: Option<User>)
    ensures r.Some? ==> r.value in rows && Field(r.value, c) == key
    ensures r.None? <==> forall i :: 0 <= i < |rows| ==> Field(rows[i], c) != key
  {
    if rows == [] then None
    else if Field(rows[0], c) == key then Some(rows[0])
    else
      var r := Find(rows[1..], c, key);
      assert forall i :: 1 <= i < |rows| ==> rows[i] == rows[1..][i - 1];
      r
  }

  predicate Unique(rows: seq<User>, c: Column) {
    forall i, j :: 0 <= i < j < |rows| ==> Field(rows[i], c) != Field(rows[j], c)
  }

  /** The table's constraints: `id` is the primary key, `email` and `username` are
      declared `unique=True`. */
  predicate TableInvariant(rows: seq<User>) {
    Unique(rows, Id) && Unique(rows, Email) && Unique(rows, Username)
  }

  /** On a unique column a lookup finds the one row holding the key. */
  lemma {:induction false} FindUnique(rows: seq<User>, c: Column, i: nat)
    requires Unique(rows, c) && i < |rows|
    ensures Find(rows, c, Field(rows[i], c)) == Some(rows[i])
  {
    if i > 0 {
      assert Field(rows[0], c) != Field(rows[i], c);
      assert Unique(rows[1..], c) by {
        forall a, b | 0 <= a < b < |rows| - 1
          ensures Field(rows[1..][a], c) != Field(rows[1..][b], c)
        {
          assert rows[1..][a] == rows[a + 1] && rows[1..][b] == rows[b + 1];
        }
      }
      FindUnique(rows[1..], c, i - 1);
    }
  }

  /** `{u.username for u in db_felhasznalok}` */
  function Usernames(rows: seq<User>): set<string> {
    set i | 0 <= i < |rows| :: rows[i].username
  }

  lemma UsernamesFind(rows: seq<User>, name: string)
    ensures name in Usernames(rows) <==> Find(rows, Username, name).Some?
  {
    if name in Usernames(rows) {
      var i :| 0 <= i < |rows| && rows[i].username == name;
      assert Field(rows[i], Username) == name;
    }
  }

  // ---------------------------------------------------------------------------
  // felhasznalonev_generalas

  const MaxAttempts: nat := 10

  /** Every one of the first MaxAttempts candidates is already taken. */
  predicate AllTaken(base: string, taken: set<string>, draws: seq<Suffix>)
    requires |draws| >= MaxAttempts
  {
    forall j :: 0 <= j < MaxAttempts ==> Handle(base, draws[j]) in taken
  }

  /** Draw `j` is the first of the first MaxAttempts whose candidate is free. */
  predicate FirstFreeAt(base: string, taken: set<string>, draws: seq<Suffix>, j: int)
    requires |draws| >= MaxAttempts
  {
    && 0 <= j < MaxAttempts
    && Handle(base, draws[j]) !in taken
    && forall i :: 0 <= i < j ==> Handle(base, draws[i]) in taken
  }

  /** Tries the draws in order, at most MaxAttempts of them, and returns the first
      candidate `base + str(draw)` that no existing user has; `used` is the number of
      draws consumed. */
  method GenerateUsername(fullName: string, existing: seq<User>, fold: string -> string,
                          draws: seq<Suffix>)
    returns (r: Option<string>, used: nat)
    requires |draws| >= MaxAttempts
    ensures 1 <= used <= MaxAttempts
    ensures var base, taken := BaseOf(fold(fullName)), Usernames(existing);
              && (r.Some? ==> r.value == Handle(base, draws[used - 1]) && FirstFreeAt(base, taken, draws, used - 1))
              && (r.None? <==> AllTaken(base, taken, draws))
              && (r.None? ==> used == MaxAttempts)
  {
    r, used := FirstFree(BaseOf(fold(fullName)), Usernames(existing), draws);
  }

  /** The `for _ in range(10)` loop of the generator, for a fixed base. */
  method FirstFree(base: string, taken: set<string>, draws: seq<Suffix>)
    returns (r: Option<string>, used: nat)
    requires |draws| >= MaxAttempts
    ensures 1 <= used <= MaxAttempts
    ensures r.Some? ==> r.value == Handle(base, draws[used - 1]) && FirstFreeAt(base, taken, draws, used - 1)
    ensures r.None? <==> AllTaken(base, taken, draws)
    ensures r.None? ==> used == MaxAttempts
  {
    used := 0;
    while used < MaxAttempts
      invariant used <= MaxAttempts
      invariant forall j :: 0 <= j < used ==> Handle(base, draws[j]) in taken
    {
      var candidate := Handle(base, draws[used]);
      if candidate !in taken {
        return Some(candidate), used + 1;
      }
      used := used + 1;
    }
    return None, used;
  }

  // ---------------------------------------------------------------------------
  // regisztral_felhasznalo

  /** The `User` table; `session.add` followed by `commit` appends a row. */
  class UserTable {
    var rows: seq<User>

    ghost predicate Valid()
      reads this
    {
      TableInvariant(rows)
    }

    constructor ()
      ensures Valid() && rows == []
    {
      rows := [];
    }
  }

  /** Appending a row whose key is new keeps a column unique. */
  lemma AppendKeepsUnique(rows: seq<User>, u: User, c: Column)
    requires Unique(rows, c) && Find(rows, c, Field(u, c)).None?
    ensures Unique(rows + [u], c)
  {
    var t := rows + [u];
    forall i, j | 0 <= i < j < |t| ensures Field(t[i], c) != Field(t[j], c) {
      if j == |rows| {
        assert t[i] == rows[i];
      } else {
        assert t[i] == rows[i] && t[j] == rows[j];
      }
    }
  }

  datatype RegisterError =
    | UsernameExhausted   // the ValueError of users.py:46-47
    | DuplicateEmail      // the commit violates the unique `email` column

  /** Generates a username, hashes the password and stores the new user under the
      fresh id `newId` (the value `uuid4` gives the primary key). Nothing is stored
      when generation gives up or the email is already in the table. */
  method RegisterUser(db: UserTable, fullName: string, email: string, password: string,
                      newId: UserId, fold: string -> string, hash: string -> string,
                      draws: seq<Suffix>)
    returns (r: Result<User, RegisterError>)
    requires db.Valid()
    requires Find(db.rows, Id, newId).None?
    requires |draws| >= MaxAttempts
    modifies db
    ensures db.Valid()
    ensures var base, taken := BaseOf(fold(fullName)), Usernames(old(db.rows));
              && (r == Failure(UsernameExhausted) <==> AllTaken(base, taken, draws))
              && (r == Failure(DuplicateEmail) <==>
                    !AllTaken(base, taken, draws) && Find(old(db.rows), Email, email).Some?)
              && (r.Success? ==>
                    && r.value == User(newId, fullName, email, r.value.username, hash(password))
                    && exists j :: FirstFreeAt(base, taken, draws, j) && r.value.username == Handle(base, draws[j]))
    ensures r.Failure? ==> db.rows == old(db.rows)
    ensures r.Success? ==> db.rows == old(db.rows) + [r.value]
  {
    ghost var base, taken := BaseOf(fold(fullName)), Usernames(db.rows);
    var username, used := GenerateUsername(fullName, db.rows, fold, draws);
    if username.None? {
      return Failure(UsernameExhausted);
    }
    assert FirstFreeAt(base, taken, draws, used - 1) && username.value == Handle(base, draws[used - 1]);
    var user := User(newId, fullName, email, username.value, hash(password));
    UsernamesFind(db.rows, username.value);
    var stored := Commit(db, user);
    r := if stored then Success(user) else Failure(DuplicateEmail);
  }

  /** `session.add(user)` and `commit()`: the unique email column rejects a second
      user with the same email, and then nothing is stored. */
  method Commit(db: UserTable, user: User) returns (stored: bool)
    requires db.Valid()
    requires Find(db.rows, Id, user.id).None? && Find(db.rows, Username, user.username).None?
    modifies db
    ensures db.Valid()
    ensures stored <==> Find(old(db.rows), Email, user.email).None?
    ensures db.rows == if stored then old(db.rows) + [user] else old(db.rows)
  {
    if Find(db.rows, Email, user.email).Some? {
      return false;
    }
    AppendKeepsUnique(db.rows, user, Id);
    AppendKeepsUnique(db.rows, user, Email);
    AppendKeepsUnique(db.rows, user, Username);
    db.rows := db.rows + [user];
    stored := true;
  }

  // ---------------------------------------------------------------------------
  // bejelentkezes_felhasznalo

  /** Looks `key` up as a username and, only if no user has that username, as an
      email; returns the user found when `verify` (bcrypt's `check_password_hash`)
      accepts the password against the stored hash. */
  method Login(rows: seq<User>, key: string, password: string, verify: (string, string) -> bool)
    returns (r: Option<User>)
    requires TableInvariant(rows)
    ensures r.Some? ==> r.value in rows && verify(r.value.passwordHash, password)
    ensures r.Some? ==> r.value.username == key || (r.value.email == key && Find(rows, Username, key).None?)
    ensures r.None? ==>
              forall i :: 0 <= i < |rows| ==>
                (rows[i].username == key ==> !verify(rows[i].passwordHash, password)) &&
                (rows[i].email == key && Find(rows, Username, key).None? ==> !verify(rows[i].passwordHash, password))
  {
    var user := Find(rows, Username, key);
    if user.None? {
      user := Find(rows, Email, key);
    }
    if user.Some? && verify(user.value.passwordHash, password) {
      return user;
    }
    forall i | 0 <= i < |rows|
      ensures rows[i].username == key ==> !verify(rows[i].passwordHash, password)
      ensures rows[i].email == key && Find(rows, Username, key).None? ==> !verify(rows[i].passwordHash, password)
    {
      if rows[i].username == key {
        FindUnique(rows, Username, i);
      }
      if rows[i].email == key && Find(rows, Username, key).None? {
        FindUnique(rows, Email, i);
      }
    }
    return None;
  }

  /** A stored user who gives their own username and a password the hash accepts
      is logged in as exactly that user. */
  method LoginByUsername(rows: seq<User>, i: nat, password: string, verify: (string, string) -> bool)
    returns (r: Option<User>)
    requires TableInvariant(rows) && i < |rows|
    requires verify(rows[i].passwordHash, password)
    ensures r == Some(rows[i])
  {
    r := Login(rows, rows[i].username, password, verify);
    FindUnique(rows, Username, i);
    var k :| 0 <= k < |rows| && rows[k] == r.value;
    FindUnique(rows, Username, k);
  }
}
