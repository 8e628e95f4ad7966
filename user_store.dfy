/** The user-table password store: migration of plaintext passwords to
    digests (`get_users`), login (`check_login`) and password change
    (`change_password`), over the in-memory "User" worksheet. */
module UserStore {
  import opened PasswordHash
  import opened Sheet

  datatype Option<T> = None | Some(value: T)

  /** The record as migration leaves it: a password that already looks like a
      digest is kept, any other is replaced by its digest. */
  function Rehash(sha: Sha256, u: User): User {
    if IsHashed(u.password) then u else u.(password := HashPassword(sha, u.password))
  }

  /** The records `get_users` returns for the records `rows` it read. */
  function Migrate(sha: Sha256, rows: seq<User>): (r: seq<User>)
    ensures |r| == |rows|
    ensures forall i :: 0 <= i < |r| ==>
              r[i].username == rows[i].username && r[i].role == rows[i].role && IsHashed(r[i].password)
    ensures forall i :: 0 <= i < |r| && IsHashed(rows[i].password) ==> r[i] == rows[i]
    ensures forall i :: 0 <= i < |r| && !IsHashed(rows[i].password) ==>
              r[i].password == HashPassword(sha, rows[i].password)
  {
    seq(|rows|, i requires 0 <= i < |rows| => Rehash(sha, rows[i]))
  }

  /** The write that rehashes the record at index `i`: its password cell
      gets the digest of the plaintext. */
  function WriteFor(sha: Sha256, rows: seq<User>, i: nat): CellWrite
    requires i < |rows|
  {
    CellWrite(PhysicalRow(i), PasswordColumn, HashPassword(sha, rows[i].password))
  }

  /** The cell writes `get_users` makes for the records `rows`, in order. */
  function MigrationWrites(sha: Sha256, rows: seq<User>): seq<CellWrite> {
    if rows == [] then []
    else
      var i := |rows| - 1;
      MigrationWrites(sha, rows[..i])
        + (if IsHashed(rows[i].password) then []
           else [WriteFor(sha, rows, i)])
  }

  /** Whether some record still holds a plaintext password. */
  predicate HasPlaintext(rows: seq<User>) {
    exists i :: 0 <= i < |rows| && !IsHashed(rows[i].password)
  }

  /** The test `check_login` and `change_password` apply to each record. */
  predicate Matches(u: User, username: string, hashed: string) {
    u.username == username && u.password == hashed
  }

  /** Record `i` is the first that matches. */
  predicate IsFirstMatch(rows: seq<User>, username: string, hashed: string, i: int) {
    0 <= i < |rows| && Matches(rows[i], username, hashed)
    && forall j :: 0 <= j < i ==> !Matches(rows[j], username, hashed)
  }

  /** `get_users`: reads every record, and replaces each plaintext password by
      its digest both in the returned records and in the worksheet's password
      cell of that record. `updated` is the flag that triggers the success
      notice. */
  method GetUsers(ws: Worksheet, sha: Sha256) returns (users: seq<User>, updated: bool)
    modifies ws
    ensures users == Migrate(sha, old(ws.rows))
    ensures ws.rows == users
    ensures ws.Writes == old(ws.Writes) + MigrationWrites(sha, old(ws.rows))
    ensures updated == HasPlaintext(old(ws.rows))
  {
    ghost var start := ws.rows;
    var data := ws.rows;
    updated := false;
    var idx := 0;
    while idx < |data|
      invariant 0 <= idx <= |data| == |start|
      invariant ws.rows == data
      invariant forall j :: 0 <= j < idx ==> data[j] == Rehash(sha, start[j])
      invariant forall j :: idx <= j < |data| ==> data[j] == start[j]
      invariant ws.Writes == old(ws.Writes) + MigrationWrites(sha, start[..idx])
      invariant updated == exists j :: 0 <= j < idx && !IsHashed(start[j].password)
    {
      var pw := data[idx].password;
      assert start[..idx + 1][..idx] == start[..idx];
      if !IsHashed(pw) {
        var hashed := HashPassword(sha, pw);
        ws.UpdateCell(PhysicalRow(idx), PasswordColumn, hashed);
        data := data[idx := data[idx].(password := hashed)];
        updated := true;
      }
      idx := idx + 1;
    }
    assert start[..idx] == start;
    users := data;
  }

  /** The search loop of `check_login` and `change_password`: the index of the
      first record whose username and stored password both match, or None
      when there is none. */
  method FindUser(rows: seq<User>, username: string, hashed: string) returns (found: Option<nat>)
    ensures found.Some? ==> IsFirstMatch(rows, username, hashed, found.value)
    ensures found.None? <==> forall j :: 0 <= j < |rows| ==> !Matches(rows[j], username, hashed)
  {
    var idx := 0;
    while idx < |rows|
      invariant 0 <= idx <= |rows|
      invariant forall j :: 0 <= j < idx ==> !Matches(rows[j], username, hashed)
    {
      if rows[idx].username == username && rows[idx].password == hashed {
        return Some(idx);
      }
      idx := idx + 1;
    }
    return None;
  }

  /** `check_login`: migrates the table as `get_users` does, then returns the
      role of the first record whose username is `username` and whose stored
      password is the digest of `password`, or None. */
  method CheckLogin(ws: Worksheet, sha: Sha256, username: string, password: string)
    returns (role: Option<string>)
    modifies ws
    ensures ws.rows == Migrate(sha, old(ws.rows))
    ensures ws.Writes == old(ws.Writes) + MigrationWrites(sha, old(ws.rows))
    ensures role.None? <==>
              forall j :: 0 <= j < |ws.rows| ==> !Matches(ws.rows[j], username, HashPassword(sha, password))
    ensures role.Some? ==>
              exists i :: IsFirstMatch(ws.rows, username, HashPassword(sha, password), i)
                          && role.value == ws.rows[i].role
  {
    var users, _ := GetUsers(ws, sha);
    var hashedInput := HashPassword(sha, password);
    var found := FindUser(users, username, hashedInput);
    if found.Some? {
      role := Some(users[found.value].role);
    } else {
      role := None;
    }
  }

  /** `change_password`: on the records as stored (no migration first),
      replaces the password cell of the first record matching `username` and
      the digest of `oldPw` by the digest of `newPw`, and reports whether it
      found one. */
  method ChangePassword(ws: Worksheet, sha: Sha256, username: string, oldPw: string, newPw: string)
    returns (ok: bool)
    modifies ws
    ensures ok <==>
              exists i :: 0 <= i < |old(ws.rows)| && Matches(old(ws.rows)[i], username, HashPassword(sha, oldPw))
    ensures ok ==>
              exists i :: IsFirstMatch(old(ws.rows), username, HashPassword(sha, oldPw), i)
                && ws.rows == old(ws.rows)[i := old(ws.rows)[i].(password := HashPassword(sha, newPw))]
                && ws.Writes == old(ws.Writes) + [CellWrite(PhysicalRow(i), PasswordColumn, HashPassword(sha, newPw))]
    ensures !ok ==> ws.rows == old(ws.rows) && ws.Writes == old(ws.Writes)
  {
    var data := ws.rows;
    var hashedOld := HashPassword(sha, oldPw);
    var hashedNew := HashPassword(sha, newPw);
    var found := FindUser(data, username, hashedOld);
    if found.Some? {
      ws.UpdateCell(PhysicalRow(found.value), PasswordColumn, hashedNew);
      ok := true;
    } else {
      ok := false;
    }
  }

  // ---------------------------------------------------------------------
  // Properties of the migration

  /** Every cell `get_users` writes is the password cell of a record that held
      plaintext, and holds that plaintext's digest. */
  lemma {:induction false} MigrationWritesSound(sha: Sha256, rows: seq<User>, w: CellWrite)
    requires w in MigrationWrites(sha, rows)
    ensures exists i :: 0 <= i < |rows| && !IsHashed(rows[i].password) && w == WriteFor(sha, rows, i)
  {
    var n := |rows| - 1;
    if w in MigrationWrites(sha, rows[..n]) {
      MigrationWritesSound(sha, rows[..n], w);
      var i :| 0 <= i < n && !IsHashed(rows[..n][i].password) && w == WriteFor(sha, rows[..n], i);
      assert rows[..n][i] == rows[i];
      assert w == WriteFor(sha, rows, i);
    } else {
      assert !IsHashed(rows[n].password) && w == WriteFor(sha, rows, n);
    }
  }

  /** Every record that held plaintext gets its password cell written with
      the digest. */
  lemma {:induction false} MigrationWritesComplete(sha: Sha256, rows: seq<User>, i: nat)
    requires i < |rows| && !IsHashed(rows[i].password)
    ensures WriteFor(sha, rows, i) in MigrationWrites(sha, rows)
  {
    var n := |rows| - 1;
    if i < n {
      assert rows[..n][i] == rows[i];
      MigrationWritesComplete(sha, rows[..n], i);
      assert WriteFor(sha, rows[..n], i) == WriteFor(sha, rows, i);
    }
  }

  /** `get_users` writes nothing exactly when every password is already a
      digest; so `updated` is true exactly when it wrote. */
  lemma {:induction false} MigrationWritesEmpty(sha: Sha256, rows: seq<User>)
    ensures MigrationWrites(sha, rows) == [] <==> !HasPlaintext(rows)
  {
    if rows != [] {
      var n := |rows| - 1;
      MigrationWritesEmpty(sha, rows[..n]);
      if HasPlaintext(rows[..n]) {
        var i :| 0 <= i < n && !IsHashed(rows[..n][i].password);
        assert rows[i] == rows[..n][i];
      }
      if HasPlaintext(rows) && IsHashed(rows[n].password) {
        var i :| 0 <= i < |rows| && !IsHashed(rows[i].password);
        assert rows[..n][i] == rows[i];
      }
    }
  }

  /** A second `get_users` on a migrated table changes no record and writes
      no cell. */
  lemma MigrateIdempotent(sha: Sha256, rows: seq<User>)
    ensures Migrate(sha, Migrate(sha, rows)) == Migrate(sha, rows)
    ensures MigrationWrites(sha, Migrate(sha, rows)) == []
  {
    MigrationWritesEmpty(sha, Migrate(sha, rows));
  }

  // ---------------------------------------------------------------------
  // Properties of login and password change

  /** After migration, a record matches the login of `username` with
      `password` exactly when its username is `username` and either its stored
      digest is the digest of `password`, or its stored plaintext has the same
      SHA-256 as `password`. */
  lemma LoginAfterMigration(sha: Sha256, rows: seq<User>, i: nat, username: string, password: string)
    requires i < |rows|
    ensures Matches(Migrate(sha, rows)[i], username, HashPassword(sha, password)) <==>
              rows[i].username == username
              && if IsHashed(rows[i].password) then rows[i].password == HashPassword(sha, password)
                 else sha(rows[i].password) == sha(password)
  {
  }

  /** `change_password` never matches a record whose stored password is still
      plaintext: a user all of whose records are plaintext cannot change the
      password, whatever old password is given. */
  lemma PlaintextCannotChange(sha: Sha256, rows: seq<User>, username: string, oldPw: string)
    requires forall j :: 0 <= j < |rows| && rows[j].username == username ==> !IsHashed(rows[j].password)
    ensures forall j :: 0 <= j < |rows| ==> !Matches(rows[j], username, HashPassword(sha, oldPw))
  {
  }

  /** After a successful `change_password`, login with the new password
      succeeds (the changed record matches), and the changed record is left
      alone by the migration that login performs. */
  lemma ChangeThenLogin(sha: Sha256, rows: seq<User>, i: nat, username: string, oldPw: string, newPw: string)
    requires IsFirstMatch(rows, username, HashPassword(sha, oldPw), i)
    ensures var changed := rows[i := rows[i].(password := HashPassword(sha, newPw))];
            Migrate(sha, changed)[i] == changed[i]
            && Matches(Migrate(sha, changed)[i], username, HashPassword(sha, newPw))
  {
  }
}
