# User accounts service: verified model of its core

This project models the core of a small user-account CRUD service in Dafny:

- **Credential strings** (`Security`): `get_password_hash` builds `salt + "$" + H(password + salt)`. `verify_password` splits the stored string on `$` and recomputes the hash. H stands for SHA-256 as 64 lowercase hex digits. The salt is 16 lowercase hex digits.
- **The users table and its lifecycle** (`Models`, `Schemas`, `Services`): a `UserService` class holds the table as a `map<int, UserRecord>` and the next auto-increment id. Its methods are `CreateUser`, `GetUser` and `UpdateUser`.
  - `UpdateUser` works as the source does. It builds the `exclude_unset` dictionary, pops `password` and puts its hash under `hashed_password`, stamps `updated_at`, and then writes every entry with `setattr` in a loop.
  - The method is proved equal to `Services.Updated`, a field-by-field reference definition of the patch.
- **Login lockout** (`Domain`): the `UserDomain` class, its `record_login_attempt`, `is_locked` (threshold 3) and `can_access_admin_panel`. Histories of attempts are replayed by a pure function, and lemmas about it cover lockout and unlocking.
- **Database URL choice** (`Config`): `sqlalchemy_database_url` and `database_connect_args` over a `Settings` value with the source's defaults. The `ValueError` cases are an error variant of a result.

The request schemas record which fields the caller sent. In `UserUpdate`, an `Option` field is `None` when it was left out. The password there is one of three things: left out, sent as null, or sent as a string. `username` is always present because the schema requires it.

`verify_password` splits on every `$` (app/utils/security.py:15), not only the first. A stored string with no `$`, or with two or more, is therefore rejected.

`Domain.LoginState` is the pure form of the login fields of `UserDomain`. `LoginState.Record` is the transition that `UserDomain.RecordLoginAttempt` performs, and `LoginState.IsLocked` is what `UserDomain.IsLocked` evaluates. `Schemas.FromRecord` is the `from_attributes` conversion of a stored row into the `UserInDB` response (app/schemas/user.py:19-24). `Schemas.ResponseHidesCredential` is stated over it.

## Model

| member | source | states |
|---|---|---|
| Security.GetPasswordHash | app/utils/security.py:5-9 | The credential is 81 characters long: 16 hex digits, then the single `$`, then 64 hex digits. |
| Security.CredentialParts | app/utils/security.py:7-9 | The 16 digits before the `$` are the given salt, and the 64 after it are `H(password + salt)`. |
| Security.Split | app/utils/security.py:15 | `str.split`: one more piece than there are separators; no piece contains the separator; joining the pieces with the separator gives back the input. |
| Security.SplitAround | app/utils/security.py:15 | If `a` and `b` have no separator, `a + sep + b` splits into exactly `[a, b]`. |
| Security.OneSeparatorDecomposes | app/utils/security.py:15 | A string with exactly one `$` splits into two pieces, and it equals the first piece, then `$`, then the second. |
| Security.VerifyPassword | app/utils/security.py:12-19 | The result is false, with no exception, whenever the stored string does not contain exactly one `$`. |
| Security.VerifyWellFormed | app/utils/security.py:15-17 | On `salt + "$" + digest` with no other `$`, verification holds iff `H(plain + salt) == digest`. This includes an empty salt, as in `"$x"`. |
| Security.VerifyRoundTrip | app/utils/security.py:5-17 | Any password verifies against its own credential string. |
| Security.VerifyOtherPassword | app/utils/security.py:5-17 | Another password verifies against a credential iff H gives the same digest for both salted inputs. |
| Security.CredentialIsNotPlainText | app/utils/security.py:9 | The stored credential differs from any plain text whose length is not 81. |
| Security.HexHasNoSeparator | app/utils/security.py:7-9 | Hex salts and digests never contain `$`. |
| Models.SetAttr | app/services/user_service.py:41-42 | `setattr` sets the named column to the value and changes no other column, the id or the creation time. |
| Models.Patched | app/services/user_service.py:41-42 | After all writes, each column in the dictionary holds its value and the other columns are unchanged. The id and creation time are kept. |
| Models.PatchedExtend | app/services/user_service.py:41-42 | Writing one more entry extends the patch by that entry, so the loop's order over the keys does not matter. |
| Models.PatchedEmpty | app/services/user_service.py:41-42 | An empty dictionary leaves the row unchanged. |
| Schemas.UserUpdate.ExcludeUnset | app/services/user_service.py:33 | `dict(exclude_unset=True)` always has `username`. It has `is_active`, `is_superuser` and `password` exactly when they were sent, with the sent values, and no other keys. |
| Schemas.ResponseHidesCredential | app/schemas/user.py:19-24 | `UserInDB` exposes no password: two rows that differ only in the credential give the same response. |
| Schemas.ResponseMirrorsRow | app/schemas/user.py:19-24 | The response read off a row carries its name, flags, id and both timestamps unchanged. |
| Schemas.SchemaDefaults | app/schemas/user.py:5-16 | `is_active` defaults to true and `is_superuser` to false. The update password defaults to absent, and a name-only update sends only `username`. |
| Services.UpdateData | app/services/user_service.py:33-39 | The update dictionary never holds `password`, always holds `updated_at = now`, and is well-typed. |
| Services.BuildUpdateData | app/services/user_service.py:33-39 | The dictionary built step by step (pop, insert hash, stamp time) is exactly `UpdateData`. |
| Services.ApplyUpdate | app/services/user_service.py:41-42 | The `setattr` loop over the dictionary yields `Patched(row, dictionary)`. |
| Services.UpdateRow | app/services/user_service.py:33-42 | Building the update dictionary and writing it onto a fetched row gives exactly `Updated(row, input, salt, now)` and keeps the row's id. |
| Services.PatchIsUpdate | app/services/user_service.py:33-42 | Writing the update dictionary gives the field-by-field update `Updated`. |
| Services.UpdateKeepsUnsentFields | app/services/user_service.py:31-46 | An update keeps `id` and `created_at`, sets `username` and `updated_at = now`, and leaves any unsent `is_active`, `is_superuser` or password as it was. |
| Services.UpdatedPasswordVerifies | app/services/user_service.py:35-36 | A sent password is stored hashed, and the new password verifies against it. An old password verifies only on a hash collision. |
| Services.UpdateIdempotent | app/services/user_service.py:31-46 | Applying the same update twice equals applying it once at the later time. |
| Services.UpdateKeepsTimestampsOrdered | app/services/user_service.py:39 | `created_at <= updated_at` still holds after an update when the clock does not go backwards. |
| Services.UserService.constructor | app/services/user_service.py:12-14 | A new service starts with an empty table and first id 1. |
| Services.UserService.CreateUser | app/services/user_service.py:16-29 | Exactly one row is added under a fresh id, and no other row changes. It holds `get_password_hash(password)` and the given name and flags, and `created_at == updated_at == now`. |
| Services.UserService.StoredCredentialsWellFormed | app/utils/security.py:12-19 | `Valid()` keeps every stored credential in the `salt$digest` shape with hex on both sides, which `create_user` and `update_user` maintain. So on any stored row, `verify_password` holds iff H of the password plus the stored salt equals the stored digest. |
| Services.UserService.GetUser | app/services/user_service.py:48-52 | Returns the row stored under the id, or `NotFound(id)` iff there is none. The table is not changed. |
| Services.UserService.UpdateUser | app/services/user_service.py:31-46 | A missing id gives `NotFound` and writes nothing. Otherwise only that row changes, and it becomes `Updated(row, input, salt, now)`. |
| Services.CreateThenGet | tests/test_user.py:19-36 | A created user is fetched back under the same id and name, and its password verifies. |
| Domain.ParseRole | app/models/domain/user.py:8-11 | A string is parsed to the role with that value. It fails iff no role has that value. |
| Domain.RoleValueRoundTrip | app/models/domain/user.py:8-11 | Every role is recovered from its string value. |
| Domain.LoginState.Record | app/models/domain/user.py:26-31 | A success resets the attempts to 0, which unlocks the profile, and sets `last_login` to its time. A failure adds exactly one attempt and keeps `last_login`. A locked profile stays locked after a failure. |
| Domain.ReplayCharacterised | app/models/domain/user.py:26-31 | After any history, the counter is the number of failures since the last success, plus the starting count when there was no success (then every attempt was a failure). `last_login` is the time of the last success, or the initial one. |
| Domain.LockedAfterThreeFailures | app/models/domain/user.py:20-31 | From a fresh profile, `n` failures in a row lock it iff `n >= 3`, and `last_login` stays unset. |
| Domain.SuccessUnlocks | app/models/domain/user.py:23-29 | Whatever came before, a success leaves the profile unlocked with 0 attempts and `last_login` equal to its time. |
| Domain.FailureWhileLockedCounts | app/models/domain/user.py:30-31 | A failure on a locked profile still adds exactly one. |
| Domain.AttemptsStayNonNegative | app/models/domain/user.py:20-31 | A counter that starts non-negative stays non-negative. |
| Domain.UserDomain.constructor | app/models/domain/user.py:14-20 | Fields are as given. `last_login` defaults to none and `login_attempts` to 0. |
| Domain.UserDomain.IsLocked | app/models/domain/user.py:22-24 | Locked iff `login_attempts >= 3`. |
| Domain.UserDomain.RecordLoginAttempt | app/models/domain/user.py:26-31 | On success: counter 0 and `last_login = now`. On failure: counter + 1 and `last_login` unchanged. `id`, `username`, `is_active` and `role` never change. |
| Domain.UserDomain.CanAccessAdminPanel | app/models/domain/user.py:33-34 | Admitted iff active and not REGULAR, that is ADMIN or SUPERUSER. |
| Domain.LockoutScenario | app/models/domain/user.py:20-31 | A new profile is unlocked after two failures, locked after the third, and unlocked again by a success. |
| Config.SqlalchemyDatabaseUrl | app/core/config.py:17-26 | Succeeds iff the type is `sqlite`, or `postgresql` with a non-empty URL. The result is the URL when it is set, else `sqlite:///./sql_app.db`. Otherwise it raises `ValueError` with the source's messages. |
| Config.DatabaseConnectArgs | app/core/config.py:28-32 | `{"check_same_thread": False}` exactly for `sqlite`, `{}` otherwise. |
| Config.DefaultsUseLocalSqlite | app/core/config.py:12-20 | With the default settings, the URL is the local SQLite file and thread sharing is allowed. |
| Config.ConnectArgsFollowUrl | app/core/config.py:17-32 | When a URL is chosen, connect arguments are non-empty iff the type is `sqlite`. A PostgreSQL URL is returned unchanged. |

## Left out

- SHA-256 and `secrets.token_hex`: H is a parameter of type `Digester`, any function whose outputs are 64 lowercase hex digits. The salt is a parameter of type `Salt`, 16 lowercase hex digits. That salts are random and distinct per call is not modelled.
- Collision resistance: `verify(q, hash(p))` being false for `q != p` holds in the source only with overwhelming probability. The model proves it is equivalent to a collision of H (`Security.VerifyOtherPassword`).
- UTF-8 encoding before hashing: H is applied to the string itself. Python strings may hold lone surrogates (U+D800 to U+DFFF) and Dafny strings cannot. On such a string `.encode()` raises `UnicodeEncodeError`, which is a `ValueError`: `get_password_hash` fails (so `create_user` and `update_user` fail), and `verify_password` returns false even on a well-formed stored string. The model has no such inputs.
- `datetime.utcnow()`: an integer `now` argument.
- The database session: the table is a map, and the auto-increment id is a counter starting at 1. `add`, `commit` and `refresh` are direct map writes. Database failures, async/await, and the lost-update race between concurrent updates are not modelled.
- The ORM class in app/models/user.py is not part of this model. Its columns are taken from what the user service reads and writes.
- The `NotFoundException` text (`User with id … not found`) and the HTTP status codes: the error carries the missing id.
- Services.UserService.UpdateUser: a password explicitly sent as null would reach the hash with `None` and fail with a `TypeError`. The model excludes it by a precondition instead of modelling the crash.
- Pydantic validation and coercion of request bodies: inputs are already typed values.
- Settings loading from the environment and `.env`, the `Config` inner class, and the cached `get_settings`: a `Settings` value is given. `DATABASE_CONNECT_ARGS` (`Dict[str, Any]`) is a `map<string, bool>`.
- HTTP routing (app/api/v1/endpoints/user.py), logging, the retrying HTTP client, engine and session setup, the application lifespan, and the unused `UnauthorizedException`: framework and I/O code with no logic of its own.
