# bareASGI auth server (SQLite store) in Dafny

This project models the credential and membership store of the bareASGI authentication
server, together with the ISO 8601 duration parser the server uses for its expiry
settings. It then proves what these operations promise.

- `wrappers.dfy` (module `Wrappers`) holds `Option` and `Result`. `Result` stands for a call
  that either returns a value or raises an exception.
- `duration.dfy` (module `Duration`) models `parse_duration` with its regular expression,
  `_parse_int`, `_parse_sign` and the day and second constants. The model is pure: the
  pattern is a grammar (`Render`, the text each combination of groups spells) plus a
  recogniser (`Match`). The two are proved to agree exactly. The arithmetic is proved
  against a reference formula.
- `auth_store.dfy` (module `AuthStore`) models `SqlAuthService` as a class:
  - Its state is the three tables `users`, `roles` and `members`. Each table is a map from
    its integer primary key to its row.
  - A flag records whether each table exists, and `isOpen` records whether `open` has run.
  - `Valid()` is the class invariant: the `UNIQUE` constraints hold, and an absent table
    is empty.
  - Queries are functions over the tables. Updates are methods that modify the object and
    state the new tables. A single insert or delete states them exactly; `update_user_roles`
    states which rows stay, and what the new rows of the user link to, without their keys.
  - New primary keys follow SQLite's rowid rule: one more than the largest key in use, or 1
    for an empty table.
  - SHA-512 is the `digest` function the service is constructed with. The random salt is a
    parameter.

  Module `AuthScenarios` in the same file holds worked runs that start from a fresh
  database.

Behaviours of the code worth knowing, each shown by a worked run:

- **Disabled users log in.** `check_password` never reads `is_enabled`, so `authenticate`
  accepts a disabled user's correct password, although `is_valid_user` rejects that user
  (`DisabledUserScenario`).
- **`permissions(True)` maps each user name to its role names.** `roles_by_users` selects
  `user_name` as the key; `permissions(False)` maps each role name to its user names.
- **Deleting a user or role leaves its member rows.** No cascade is declared, and SQLite does
  not enforce foreign keys unless asked to, so the rows stay. A user added afterwards can
  take the freed rowid and inherit those rows (`OrphanScenario`).
- **Granting a pair twice raises.** The `UNIQUE (user_id, role_id)` violation escapes
  `grant` as an `IntegrityError`; it is not reported as `false` (`GrantTwiceScenario`).

## Model

| member | source | states |
|---|---|---|
| Duration.Render | bareasgi_auth_server_sqlite/utils.py:9 | the grammar of the pattern: the text a combination of groups spells, group 1 first and then `P` |
| Duration.MatchBody | bareasgi_auth_server_sqlite/utils.py:9 | the pattern anchored at both ends; group 1 is `-` exactly when the text starts with `-` |
| Duration.Match | bareasgi_auth_server_sqlite/utils.py:36 | `DURATION_REGEX.match`, where `$` also matches before one final newline; group 1 is empty or `-` (fully characterised by `MatchIff`) |
| Duration.ParseSign | bareasgi_auth_server_sqlite/utils.py:23-24 | `_parse_sign`: -1 exactly for `-`, and 1 for anything else |
| Duration.ParseInt | bareasgi_auth_server_sqlite/utils.py:19-20 | `_parse_int`: never negative, and a failure is `int()`'s ValueError naming the text it refused |
| Duration.Magnitude | bareasgi_auth_server_sqlite/utils.py:39-55 | the total before the sign: it fails only with `int()`'s error (its value is given by `MagnitudeWhole`) |
| Duration.Evaluate | bareasgi_auth_server_sqlite/utils.py:39-57 | the arithmetic after a match: it fails only with `int()`'s error, never with a failed match |
| Duration.ParseDuration | bareasgi_auth_server_sqlite/utils.py:27-59 | `parse_duration` in seconds: it reports "unable to convert" exactly when the pattern does not match |
| Duration.DigitRun | bareasgi_auth_server_sqlite/utils.py:9 | `\d+` read greedily: the first `n` characters are digits, and the next one, if any, is not |
| Duration.MatchDesignated | bareasgi_auth_server_sqlite/utils.py:9 | `(?:(\d+)L)?` yields a numeral or nothing, and the group and the rest re-spell the input |
| Duration.MatchDays | bareasgi_auth_server_sqlite/utils.py:9 | `(?:(\d+)([DW]))?` yields a numeral with `D` or `W`, or nothing, and re-spells the input |
| Duration.MatchSeconds | bareasgi_auth_server_sqlite/utils.py:9 | `(\d+(?:\.\d+)?)S` yields a numeral with an optional numeral fraction, and re-spells the input |
| Duration.MatchTime | bareasgi_auth_server_sqlite/utils.py:9 | the `T` part yields well-formed hour, minute and second groups, and re-spells the input |
| Duration.LookaheadIff | bareasgi_auth_server_sqlite/utils.py:9 | the lookahead after `P` (a digit, or `T` and a digit) holds exactly when some group other than an empty `T` part follows |
| Duration.MatchFieldsComplete | bareasgi_auth_server_sqlite/utils.py:9 | the matchers after `P` read back every well-formed combination of groups |
| Duration.MatchFieldsSound | bareasgi_auth_server_sqlite/utils.py:9 | whatever the matchers after `P` return is well formed and spells exactly the text read |
| Duration.MatchBodySound | bareasgi_auth_server_sqlite/utils.py:9 | a match anchored at both ends is well formed and spells the whole input |
| Duration.MatchBodyComplete | bareasgi_auth_server_sqlite/utils.py:9 | every well-formed combination of groups is matched from its own spelling |
| Duration.RenderEndsWithoutNewline | bareasgi_auth_server_sqlite/utils.py:9 | a spelled duration is non-empty and never ends in a newline, so `$` has at most one place to match |
| Duration.MatchSound | bareasgi_auth_server_sqlite/utils.py:36 | an accepted text is a grammar spelling, or a grammar spelling plus one newline |
| Duration.MatchComplete | bareasgi_auth_server_sqlite/utils.py:36 | every spelling is accepted with its own groups, with or without a final newline |
| Duration.MatchIff | bareasgi_auth_server_sqlite/utils.py:36 | `match(s)` yields groups `g` if and only if `g` is well formed and `s` spells `g`, allowing one final newline |
| Duration.RejectsUnspelled | bareasgi_auth_server_sqlite/utils.py:36-38 | `parse_duration` raises "unable to convert" exactly for the texts no combination of groups spells |
| Duration.ParseIntNumeral | bareasgi_auth_server_sqlite/utils.py:19-20 | an absent group is 0 and a run of digits is its decimal value |
| Duration.FractionIsNotAnInteger | bareasgi_auth_server_sqlite/utils.py:19-20 | `int()` refuses a seconds group with a fraction, naming its text |
| Duration.MagnitudeWhole | bareasgi_auth_server_sqlite/utils.py:12-16 | the unsigned total is the formula over the constants `DAYS_IN_MONTH` to `SECONDS_IN_DAY` |
| Duration.MagnitudeUnsigned | bareasgi_auth_server_sqlite/utils.py:48-55 | with whole seconds, the total before the sign is the reference count of seconds |
| Duration.EvaluateWhole | bareasgi_auth_server_sqlite/utils.py:39-57 | with whole seconds, the result is the sign times the seconds the groups denote |
| Duration.EvaluateFraction | bareasgi_auth_server_sqlite/utils.py:46 | with a fraction on the seconds, the call raises ValueError from `int()` |
| Duration.EvaluateCorrect | bareasgi_auth_server_sqlite/utils.py:39-57 | both cases together: the reference total with whole seconds, the `int()` error with a fraction |
| Duration.ParseDurationCorrect | bareasgi_auth_server_sqlite/utils.py:27-59 | for every spelled duration, with or without a final newline: the reference seconds (30-day months, 360-day years, 7-day weeks, the sign applied), or `int()`'s error for fractional seconds |
| Duration.EvaluateNegative | bareasgi_auth_server_sqlite/utils.py:23-24 | `_parse_sign` of `-` negates the total, and an error stays the same error |
| Duration.MatchNegative | bareasgi_auth_server_sqlite/utils.py:9 | a leading `-` is group 1: the text after it matches with the same other groups |
| Duration.NegateDuration | bareasgi_auth_server_sqlite/utils.py:39-57 | for any `x` that does not itself start with `-`, `parse_duration("-" + x)` is the negation of `parse_duration(x)`, and an error stays the same error |
| Duration.EmptyDesignatorsRejected | bareasgi_auth_server_sqlite/utils.py:9 | `P` and `PT` alone fail the lookahead and raise |
| Duration.OneYear | bareasgi_auth_server_sqlite/utils.py:40-55 | `P1Y` is 360 days of seconds |
| Duration.TwoWeeks | bareasgi_auth_server_sqlite/utils.py:42-48 | `P2W` is 14 days of seconds |
| Duration.DayWithEmptyTimePart | bareasgi_auth_server_sqlite/utils.py:9 | `P1DT` matches, because the lookahead only needs the day group, and is one day |
| Duration.FractionalSecondsRejected | bareasgi_auth_server_sqlite/utils.py:46 | `PT1.5S` matches but raises from `int("1.5")` |
| AuthStore.NextRowId | bareasgi_auth_server_sqlite/sql_auth_service.py:389-395 | the key an insert receives is one past the largest key in use, or 1 in an empty table, and is unused |
| AuthStore.SqlAuthService.constructor | bareasgi_auth_server_sqlite/sql_auth_service.py:16-20 | a service not yet opened, over the tables the database already holds |
| AuthStore.SqlAuthService.IsValidPassword | bareasgi_auth_server_sqlite/sql_auth_service.py:474-483 | a stored hash only ever verifies when it has the 128 characters of a SHA-512 hex digest |
| AuthStore.SqlAuthService.HashPassword | bareasgi_auth_server_sqlite/sql_auth_service.py:486-491 | the salt is kept, and the pair it returns verifies the password it was made from |
| AuthStore.SqlAuthService.PasswordVerifiesIffDigestsAgree | bareasgi_auth_server_sqlite/sql_auth_service.py:474-491 | an attempt verifies against a stored hash exactly when its salted digest equals the password's |
| AuthStore.SqlAuthService.UserExists | bareasgi_auth_server_sqlite/sql_auth_service.py:62-74 | `user_exists`: true exactly when the lookup by name returns a row |
| AuthStore.SqlAuthService.RoleExists | bareasgi_auth_server_sqlite/sql_auth_service.py:180-190 | `role_exists`: true exactly when the lookup by name returns a row |
| AuthStore.SqlAuthService.UserRowsCount | bareasgi_auth_server_sqlite/sql_auth_service.py:62-74 | under `UNIQUE (name)` the lookup by name finds one row if the user exists and none otherwise |
| AuthStore.SqlAuthService.RoleRowsCount | bareasgi_auth_server_sqlite/sql_auth_service.py:180-190 | the same for roles: one row if the role exists, none otherwise |
| AuthStore.SqlAuthService.UserIsEnabled | bareasgi_auth_server_sqlite/sql_auth_service.py:76-88 | only an existing user can be enabled |
| AuthStore.SqlAuthService.CheckPassword | bareasgi_auth_server_sqlite/sql_auth_service.py:90-107 | only an existing user's password can check |
| AuthStore.SqlAuthService.HasRole | bareasgi_auth_server_sqlite/sql_auth_service.py:156-178 | a member row linking the names implies the user and the role both exist |
| AuthStore.SqlAuthService.LinkRowsCount | bareasgi_auth_server_sqlite/sql_auth_service.py:447-470 | under the unique constraints, one member row links a held user and role pair, and none links any other |
| AuthStore.SqlAuthService.UserRoles | bareasgi_auth_server_sqlite/sql_auth_service.py:267-284 | a role is in the result exactly when the user holds it |
| AuthStore.SqlAuthService.RoleUsers | bareasgi_auth_server_sqlite/sql_auth_service.py:247-265 | a user is in the result exactly when they hold the role |
| AuthStore.SqlAuthService.IsValidUser | bareasgi_auth_server_sqlite/sql_auth_service.py:35-36 | true exactly when a row of that name exists and is enabled |
| AuthStore.SqlAuthService.Authorizations | bareasgi_auth_server_sqlite/sql_auth_service.py:38-39 | exactly the roles the user holds |
| AuthStore.SqlAuthService.Authenticate | bareasgi_auth_server_sqlite/sql_auth_service.py:22-33 | KeyError exactly when a credential is missing. Otherwise it returns the user name exactly when the service is open and the password checks, and none in every other case |
| AuthStore.SqlAuthService.JoinRows | bareasgi_auth_server_sqlite/sql_auth_service.py:323-332 | the three-way join yields a user and role pair exactly when the user holds the role |
| AuthStore.SqlAuthService.GroupedJoin | bareasgi_auth_server_sqlite/sql_auth_service.py:335-349 | grouping the join by user gives `user_roles`, and grouping it by role gives `role_users` |
| AuthStore.GroupRows | bareasgi_auth_server_sqlite/sql_auth_service.py:343-349 | the loop over the rows leaves one entry per key that occurs, holding exactly that key's values |
| AuthStore.SqlAuthService.Permissions | bareasgi_auth_server_sqlite/sql_auth_service.py:319-349 | keys are the users that hold a role (`True`) or the roles that are held (`False`), each mapped to `user_roles` or `role_users` |
| AuthStore.SqlAuthService.Rehashed | bareasgi_auth_server_sqlite/sql_auth_service.py:114-119 | a rehashed row keeps its name and flag, and verifies the new password |
| AuthStore.SqlAuthService.AddUser | bareasgi_auth_server_sqlite/sql_auth_service.py:41-60 | inserts under the next rowid exactly when the name is new, and otherwise changes nothing and returns false. Afterwards the password checks and the flag is as given |
| AuthStore.SqlAuthService.ChangePassword | bareasgi_auth_server_sqlite/sql_auth_service.py:109-123 | true exactly when the user exists. Afterwards exactly the attempts whose salted digest matches the new password check, and nothing else changes |
| AuthStore.SqlAuthService.DeleteUser | bareasgi_auth_server_sqlite/sql_auth_service.py:125-134 | removes the named row and reports whether one existed. Every other user and every member row stays |
| AuthStore.SqlAuthService.AddRole | bareasgi_auth_server_sqlite/sql_auth_service.py:136-147 | inserts under the next rowid exactly when the name is new, and otherwise changes nothing and returns false |
| AuthStore.SqlAuthService.DeleteRole | bareasgi_auth_server_sqlite/sql_auth_service.py:149-154 | removes the named row and reports whether one existed. Every other role and every member row stays |
| AuthStore.SqlAuthService.InsertMember | bareasgi_auth_server_sqlite/sql_auth_service.py:447-468 | a new member row goes under the next rowid, and no other row changes |
| AuthStore.SqlAuthService.Grant | bareasgi_auth_server_sqlite/sql_auth_service.py:192-216 | false when a name does not resolve, IntegrityError when the pair is already held, and otherwise true with exactly one linking row added |
| AuthStore.SqlAuthService.RevokeAsWritten | bareasgi_auth_server_sqlite/sql_auth_service.py:222-226 | as written, every call raises AttributeError on `members.c.id` |
| AuthStore.SqlAuthService.Revoke | bareasgi_auth_server_sqlite/sql_auth_service.py:218-245 | true exactly when the pair was held. Afterwards the pair is not held, and every other pair keeps its status |
| AuthStore.SqlAuthService.InsertLinks | bareasgi_auth_server_sqlite/sql_auth_service.py:304-316 | inserts one row linking the user to each target role, and keeps each earlier row |
| AuthStore.SqlAuthService.UpdateUserRolesAsWritten | bareasgi_auth_server_sqlite/sql_auth_service.py:304-306 | as written, every call raises AttributeError on `Insert.select_from` |
| AuthStore.SqlAuthService.UpdateUserRoles | bareasgi_auth_server_sqlite/sql_auth_service.py:286-317 | afterwards the user holds exactly the named roles that exist, and the user's member rows point only at those roles. Every member row of another user id, orphan rows included, stays as it was, and no other row appears. The result is true exactly when the user exists and some named role exists |
| AuthStore.SqlAuthService.Open | bareasgi_auth_server_sqlite/sql_auth_service.py:351-382 | as written, the service is opened with every table present, and no row changes |
| AuthStore.SqlAuthService.OpenSeedingAdmin | bareasgi_auth_server_sqlite/sql_auth_service.py:351-382 | as intended: `admin` exists afterwards. An existing `admin` is left alone; otherwise one is added, enabled, with password `admin` |
| AuthScenarios.FreshService | bareasgi_auth_server_sqlite/sql_auth_service.py:351-382 | opening an empty database seeds only `admin`, under rowid 1 |
| AuthScenarios.OpenScenario | bareasgi_auth_server_sqlite/sql_auth_service.py:381-382 | on a fresh database, `open` as written leaves no `admin`, while the intended seeding lets `admin`/`admin` log in |
| AuthScenarios.DisabledUserScenario | bareasgi_auth_server_sqlite/sql_auth_service.py:22-36 | a disabled user is not valid, yet authenticates |
| AuthScenarios.GrantTwiceScenario | bareasgi_auth_server_sqlite/sql_auth_service.py:192-216 | the first grant returns true and the second raises IntegrityError |
| AuthScenarios.RevokeScenario | bareasgi_auth_server_sqlite/sql_auth_service.py:218-245 | revoke as written raises after a grant; as intended it returns true and the role is gone |
| AuthScenarios.UpdateRolesScenario | bareasgi_auth_server_sqlite/sql_auth_service.py:286-317 | as written it raises; as intended, an unknown role name is skipped and the known one is held |
| AuthScenarios.DeletedGrantee | bareasgi_auth_server_sqlite/sql_auth_service.py:125-134 | after `alice` is granted `admin` and deleted, her member row still links rowid 2 to the role |
| AuthScenarios.OrphanScenario | bareasgi_auth_server_sqlite/sql_auth_service.py:125-134 | a user added after a deletion takes the freed rowid and inherits the deleted user's role |

## Findings

| source | as written | input that shows it | evidently intended | confidence | as-written member | corrected member |
|---|---|---|---|---|---|---|
| bareasgi_auth_server_sqlite/sql_auth_service.py:381-382 | `open` calls `add_user('admin', ...)` only when `user_exists('admin')` is true, and that insert is then refused | `open()` on an empty database: no `admin` is created | seed `admin`/`admin` only when no `admin` exists | not executed | AuthStore.SqlAuthService.Open, AuthScenarios.OpenScenario | AuthStore.SqlAuthService.OpenSeedingAdmin |
| bareasgi_auth_server_sqlite/sql_auth_service.py:225 | `revoke` selects `self._members.c.id`, a column `members` does not have (its key is `member_id`). Line 237 also joins roles on `members.member_id` instead of `role_id` | `revoke("alice", "admin")` after granting that pair raises AttributeError | delete the member row that links the user to the role, and return whether one went | not executed | AuthStore.SqlAuthService.RevokeAsWritten, AuthScenarios.RevokeScenario | AuthStore.SqlAuthService.Revoke |
| bareasgi_auth_server_sqlite/sql_auth_service.py:305 | `update_user_roles` builds its insert with `Insert.select_from`, which SQLAlchemy's `Insert` does not have (`from_select` is). Line 296 also joins users on `members.member_id` instead of `user_id` | `update_user_roles("alice", {"editor"})` raises AttributeError, and the transaction rolls back | in one transaction, replace the user's member rows with one row per existing named role | not executed | AuthStore.SqlAuthService.UpdateUserRolesAsWritten, AuthScenarios.UpdateRolesScenario | AuthStore.SqlAuthService.UpdateUserRoles |

## Left out

- The async engine, connections, cursors and SQLAlchemy's table reflection and DDL are not modelled. Each call is one atomic step on the three maps, so concurrency and transaction isolation are left out.
- `open` runs `user_exists` and `add_user` on connections of their own, nested inside its own transaction. The model runs them in one state.
- UserExists, RoleExists, UserIsEnabled, CheckPassword, HasRole, UserRoles, RoleUsers, IsValidUser, Authorizations, JoinRows, Permissions, and every update (AddUser, ChangePassword, DeleteUser, AddRole, DeleteRole, Grant, Revoke, RevokeAsWritten, UpdateUserRoles, UpdateUserRolesAsWritten) require `isOpen`. In the source each starts with `assert ... is not None`, which raises AssertionError before `open` (or does nothing under `python -O`). Only `Authenticate` models that path, because its bare `except` turns the error into `None`.
- IsValidPassword and HashPassword: SHA-512 is the uninterpreted `digest` function, over the string `password + salt`. The `str.encode()` to UTF-8 before hashing is not modelled.
- HashPassword: `uuid.uuid4().hex` is random, so the salt is a parameter of each call that hashes.
- NextRowId: SQLite picks a random unused key once the largest key is 2^63 - 1. The model always takes one more than the largest key.
- The column lengths `String(256)`, `CHAR(32)` and `String(128)` are not enforced, since SQLite does not enforce them.
- Foreign keys are not enforced, as in SQLite without `PRAGMA foreign_keys`.
- Grant: the `users × roles` cross join of `grant` yields at most one pair under the unique names. The model inserts that pair and does not model a multi-row insert.
- CheckPassword, UserIsEnabled, UserExists and RoleExists are stated as "some row qualifies" rather than "the first row `fetchone` returns qualifies". With unique names there is only ever one row (`UserRowsCount`, `RoleRowsCount`).
- Permissions: the order in which the cursor yields rows is not modelled. `GroupRows` picks rows in an arbitrary order, and its result does not depend on that order.
- ParseDuration returns the whole number of seconds. The `timedelta` it is wrapped in is not modelled: its normalisation into days, seconds and microseconds, and its OverflowError beyond 999999999 days.
- ParseInt: `\d` and `int()` in Python also accept non-ASCII decimal digits, and `int()` refuses numerals over 4300 digits. The model takes the ASCII digits `0` to `9` and numerals of any length.
- `config.py`, `server.py`, `app.py` and `entrypoint/startup.py` (configuration loading, the HTTP server and start-up) are not part of this model.
