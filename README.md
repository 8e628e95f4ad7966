# User-table password store

A Dafny model of the password store in `streamlit_app.py`, the login form of a
data-entry tool that keeps its users in the "User" worksheet of a Google
spreadsheet. That worksheet has a header row `Username | Password | Role`. Each
record after the header is one user. A password is stored as the lowercase hex
SHA-256 digest of the user's password. Older records may still hold plaintext.

The model has three modules:

- `PasswordHash` (`password_hash.dfy`) covers `is_hashed` and `hash_password`.
  - SHA-256 itself is a parameter `sha` of type `string -> Digest`, where a
    digest is 32 octets.
  - The `hexdigest()` rendering is modelled in full: two lowercase hex
    characters per octet, high nibble first.
  - So it is proved, not assumed, that every digest `hash_password` produces
    passes `is_hashed`, and that comparing hex strings is the same as
    comparing digests.
- `Sheet` (`worksheet.dfy`) models the worksheet as a class.
  - `rows` holds the records. Record `idx` is at physical sheet row `idx + 2`:
    rows are numbered from 1, and row 1 is the header.
  - `update_cell(row, col, value)` is `UpdateCell`, and it changes that one
    cell.
  - A ghost log `Writes` records every cell write, so the model can state
    which cells an operation writes.
- `UserStore` (`user_store.dfy`) covers `get_users`, `check_login` and
  `change_password`.
  - They are module-level methods that take the worksheet as a parameter and
    modify it, with loops written as in the source.
  - Each is specified by the functions `Migrate` and `MigrationWrites` or by
    the first-match predicate `IsFirstMatch`.

Two points of behaviour are worth stating outright:

- `is_hashed` accepts only lowercase hex digits. A digest stored in the sheet
  in upper or mixed case is treated as plaintext by `get_users` and hashed
  again, so, barring a SHA-256 collision, that user can no longer log in with the
  original password. The
  model does the same: `IsHashed` rejects any upper-case character.
- The code has no lockout after failed logins, no cache and no retries, so
  none of these are modelled.

## Model

| member | source | states |
|---|---|---|
| `PasswordHash.FullMatchLowerHex` | streamlit_app.py:27 | `re.fullmatch(r'[0-9a-f]+', s)` succeeds exactly when `s` is non-empty and every character is a digit or one of `a`-`f` |
| `PasswordHash.IsHashed` | streamlit_app.py:26-27 | a password counts as hashed exactly when it has length 64 and every character is in `0-9a-f` (an upper-case hex digit makes it false) |
| `PasswordHash.HexDigest` | streamlit_app.py:31 | `hexdigest()` of `n` octets is `2n` characters, all lowercase hex digits; characters `2k` and `2k+1` are the high and low nibble of octet `k` |
| `PasswordHash.HashPassword` | streamlit_app.py:30-31 | the result of `hash_password` always passes `is_hashed` |
| `PasswordHash.HexDigestInjective` | streamlit_app.py:31 | two digests with the same hex rendering are equal |
| `PasswordHash.SameHashIffSameDigest` | streamlit_app.py:30-31 | two passwords hash to the same stored string exactly when their SHA-256 digests agree |
| `Sheet.WithField` | streamlit_app.py:43 | replacing column `col` of a record sets that column and leaves the other two unchanged |
| `Sheet.Worksheet.UpdateCell` | streamlit_app.py:43 | `update_cell(row, col, v)` changes record `row - 2` and no other record; afterwards cell `(row, col)` reads `v` and every other cell reads what it held; the write is logged |
| `UserStore.Migrate` | streamlit_app.py:39-44 | migration keeps record count, order, usernames and roles; every resulting password passes `is_hashed`; a record already hashed is unchanged; any other password becomes `hash_password` of its old value |
| `UserStore.GetUsers` | streamlit_app.py:34-48 | returns the migrated records; the worksheet then holds exactly them; the cells it writes are `MigrationWrites` of the records it read, in order; `updated` is true exactly when some record held plaintext |
| `UserStore.MigrationWritesSound` | streamlit_app.py:41-43 | every cell `get_users` writes is `(idx + 2, 2)` of a record `idx` that held plaintext, and the value written is that plaintext's digest |
| `UserStore.MigrationWritesComplete` | streamlit_app.py:41-43 | every record `idx` that held plaintext gets cell `(idx + 2, 2)` written with its digest |
| `UserStore.MigrationWritesEmpty` | streamlit_app.py:38-46 | `get_users` writes no cell exactly when no record holds plaintext, so the success notice appears exactly when something was written |
| `UserStore.MigrateIdempotent` | streamlit_app.py:34-48 | a second `get_users` changes no record and writes no cell |
| `UserStore.FindUser` | streamlit_app.py:54-57 | the search loop returns the index of the first record whose username and stored password both match, or None exactly when no record matches |
| `UserStore.CheckLogin` | streamlit_app.py:51-57 | `check_login` first migrates the table as `get_users` does; it returns the role of the first migrated record that matches the username and `hash_password(password)`, or None exactly when none matches |
| `UserStore.LoginAfterMigration` | streamlit_app.py:39-44 | after migration, a record matches a login exactly when its username matches and either its stored digest equals the password's digest, or its stored plaintext has the same SHA-256 as the password |
| `UserStore.ChangePassword` | streamlit_app.py:60-71 | `change_password` works on the records as stored, with no migration. It returns true exactly when some record matches the username and `hash_password(old_pw)`. It then writes `hash_password(new_pw)` into cell `(idx + 2, 2)` of the first such record only, and changes nothing else. When it returns false, nothing is written |
| `UserStore.PlaintextCannotChange` | streamlit_app.py:62-68 | if every record of a user still holds plaintext, no record matches `change_password`'s test for any old password |
| `UserStore.ChangeThenLogin` | streamlit_app.py:60-70 | after a successful change, the changed record survives login's migration untouched and matches a login with the new password |

## Left out

- `connect_to_gsheets` (reading the environment, OAuth credentials, opening the spreadsheet): network and configuration I/O. The model starts from a `Worksheet` object.
- `main`: the Streamlit widgets, session state, reruns and messages. The `st.success` notice of `get_users` is the returned `updated` flag.
- The internals of SHA-256 and the UTF-8 encoding of the password: they are the parameter `sha`. The model relies only on the digest being 32 octets.
- Cell values that are not strings, such as a numeric password returned by `get_all_records`: every cell is a string here.
- Looking up the worksheet by the name "User": the model works on that one worksheet directly.
- Failing remote calls and a missing header: `get_all_records` (streamlit_app.py:36, 62) and `update_cell` (streamlit_app.py:43, 69) are assumed to succeed, and the keys `Username`, `Password` and `Role` are assumed present. In the source, a failed `update_cell` inside the loop of `get_users` leaves a partial migration: some password cells are hashed, the rest are still plaintext. The exception then leaves `get_users`, passes through `check_login`, and is not caught by `main`, which catches only connection errors. A missing header key raises `KeyError` the same way. The next `get_users` finishes a partial migration, because it skips rows that are already hashed.
- Header order: the model has the password in column 2 by construction. The source writes the digest to physical column 2 (streamlit_app.py:43, 69) whatever that column's header is, but updates the returned record by the key `Password`. If the sheet's columns are in another order, the source overwrites a different column, and the model cannot show that.
- Sheet.Worksheet.UpdateCell: only data rows and the three columns can be written. The header row and cells outside the table are not modelled, because the source never writes them.
- Concurrent edits of the shared sheet by other sessions between the read and the write of one call: each operation is modelled as running alone.
