# Resume API: repository operations and token authentication

This project models the two pieces of logic in a small résumé CRUD service:

- **The resume repository** (`operations.py`). It reads one resume by primary key and lists resumes, optionally filtered by a skill, with an offset and a limit. It creates a resume, applies a partial update and deletes a resume.
- **The authentication decisions** (`auth.py`). It checks a username and password against a fixed user table, builds the claims of a JWT access token with a default 30-minute lifetime, and resolves a bearer token to a user or rejects it with one `401 Could not validate credentials` error that carries `WWW-Authenticate: Bearer`.

The `resumes` table is modelled in two ways:

- `Operations.Db` is a value holding the rows by id, the order in which a plain `SELECT` returns them, and the next value of the id sequence.
- `Operations.ResumeStore` is a class holding the same three parts as fields. Its `Create`, `Update` and `Delete` methods change those fields in place. Each of them is proved equal to a step function on `Db` (`Inserted`, `Patched`, `Removed`). Lemmas about those functions state the frame conditions, the uniqueness of emails and the effect on the listing.

Everything database-specific is explicit:

- The unique email constraint and the NOT NULL columns are checked.
- A negative OFFSET or LIMIT is refused.
- The id sequence advances even when an insert fails, because PostgreSQL sequences are not transactional.

JWT signing and verification are a `JwtCodec`, a pair of functions the model knows nothing about. The lemmas that need the library's behaviour require `Auth.Faithful(codec)`. That predicate says a token fails to decode once its numeric `exp` has passed, and before that decodes to the payload it was made from when that payload holds only `sub` (a string) and `exp`. The current time is an integer parameter, in seconds.

Modules: `Wrappers` (Option, Result), `Schemas` (records, payloads, the partial-update merge), `SkillFilter` (the skill match), `Operations` (the repository) and `Auth`.

Three behaviours of the code are worth stating outright:

- **Limit.** Any integer is passed to the query: 0 lists nothing and a negative value makes PostgreSQL raise an error.
- **Skill match.** Each stored skill is used as an ILIKE pattern against the searched skill, so `%`, `_` and `\` in a stored skill act as wildcards. `Operations.ResumeStore.List` returns this listing (`Operations.ListingAsWritten`); `Operations.Listing` is the case-insensitive exact match, and the two agree whenever no stored skill holds a special character (see Findings).
- **Email conflicts.** The IntegrityError of a second row with the same email is not caught; the model returns it as `Failure(UniqueViolation)`.

## Model

| member | source | states |
|---|---|---|
| `Schemas.Merge` | operations.py:36-37 | each field the patch sends, including an explicit null, is overwritten and every unsent field and the id keep their values; null sent for full_name, email or phone fails with a NOT NULL violation, and only then |
| `Schemas.MergeFrame` | operations.py:36-37 | field by field: unsent fields are unchanged, sent fields take the sent value, an explicit null clears a nullable field |
| `Schemas.MergeIdentityAndIdempotence` | operations.py:32-40 | a patch that sends nothing leaves the row as it was; applying the same patch twice gives the same row as applying it once |
| `SkillFilter.ILike` | operations.py:18 | a pattern without `%` matches only strings no longer than itself |
| `SkillFilter.MatchesAsWritten` | operations.py:18 | a row with null or empty skills never matches; a row holding the skill `%` matches every search |
| `SkillFilter.LiteralPatternIsEquality` | operations.py:18 | on a pattern with no `%`, `_` or `\`, ILIKE holds exactly when the two strings are equal ignoring ASCII case |
| `SkillFilter.PercentMatchesAll` | operations.py:18 | a stored skill `%` matches every searched string |
| `SkillFilter.MatchesAgree` | operations.py:18 | for a resume whose skills hold no special characters, the query's match (some stored skill, as a pattern, matches) is the case-insensitive membership test |
| `SkillFilter.FilterAsWritten` | operations.py:16-18 | keeps exactly the rows some stored skill of which, read as a pattern, matches the searched skill |
| `SkillFilter.Filter` | operations.py:16-18 | keeps exactly the rows with non-null skills holding the searched skill ignoring case, and never more rows than it was given |
| `SkillFilter.FilterAsWrittenConcat` | operations.py:16-19 | the query as written distributes over concatenation, so the rows it keeps stay in their storage order |
| `SkillFilter.FilterConcat` | operations.py:16-19 | filtering distributes over concatenation, so kept rows stay in their storage order |
| `SkillFilter.FilterSingleton` | operations.py:16-18 | a single row is kept if and only if it matches |
| `SkillFilter.FilterAgreesOnLiteralSkills` | operations.py:16-18 | when no stored skill holds `%`, `_` or `\`, the query as written and the case-insensitive filter return the same rows in the same order |
| `SkillFilter.WildcardSkillMatchesAnySearch` | operations.py:18 | a resume with skills `["%"]` is returned for a search on "java" by the query as written but not by the intended filter |
| `Operations.Records` | operations.py:15 | one record per listed id, in storage order, each the stored row for that id |
| `Operations.RecordsAreTheRows` | operations.py:15 | a record is listed if and only if it is the stored row for its own id |
| `Operations.Page` | operations.py:19 | OFFSET/LIMIT: at most `limit` records, exactly min(limit, n - skip) of them when skip < n, and they are the consecutive records starting at `skip` |
| `Operations.ListingAsWritten` | operations.py:14-21 | a negative offset or limit is refused by the database; otherwise at most `limit` records; with no skill or an empty skill the storage order is offset and limited; with a skill the records some stored skill of which, read as a pattern, matches are kept in storage order, then offset and limited |
| `Operations.Listing` | operations.py:14-21 | as `ListingAsWritten`, but with a skill the records holding it ignoring case are offset and limited |
| `Operations.ListingAgreesOnLiteralSkills` | operations.py:16-19 | when no record's skills hold `%`, `_` or `\`, the query as written and the intended listing return the same result for every offset, limit and skill |
| `Operations.ListingSkillSound` | operations.py:16-21 | with a non-empty skill, every listed resume is a stored one whose non-null skills hold the skill ignoring case |
| `Operations.ListingUnfilteredComplete` | operations.py:19-21 | without a skill, every record from position `skip` on, within `limit`, is listed at its offset position |
| `Operations.Inserted` | operations.py:24-29 | fails with a unique violation exactly when the email is already held, and then rows and order are unchanged; otherwise adds one row with a previously unused id and the payload's values, appended to the order, and leaves other rows untouched; the id sequence advances either way |
| `Operations.CreateAppends` | operations.py:24-29 | after a successful create the listing is the old listing followed by the new record |
| `Operations.DuplicateEmailRejected` | models.py:12 | after a successful create, a second create with the same email fails with a unique violation and stores nothing |
| `Operations.Patched` | operations.py:32-40 | a missing id gives None and an unchanged table; a null sent for a NOT NULL column or an email held by another row fails and changes nothing; otherwise only that row is replaced by the merged row, with the same id, and the order and the id sequence are unchanged |
| `Operations.EmptyPatchIsNoOp` | operations.py:32-40 | a patch that sends nothing returns the row as stored and leaves the table exactly as it was |
| `Operations.UpdateKeepsPlace` | operations.py:32-40 | a successful update keeps the listing's length and every other record at its position |
| `Operations.Removed` | operations.py:43-49 | returns True if and only if the id was stored; exactly that row is removed; a False result leaves the table unchanged |
| `Operations.DeleteTwice` | operations.py:43-49 | a second delete of the same id returns False and changes nothing |
| `Operations.DeleteDropsOne` | operations.py:43-49 | a successful delete removes exactly that record from the listing and keeps the others in order |
| `Operations.Walkthrough` | operations.py:24-49 | on an empty table the first resume gets id 1, patching its phone changes only the phone, deleting it returns True and empties the listing, and a second delete returns False |
| `Operations.ResumeStore.Get` | operations.py:9-11 | returns the row stored under the id, which carries that id, or None when there is none; the table is only read |
| `Operations.ResumeStore.List` | operations.py:14-21 | returns `ListingAsWritten` of the stored records, which is also their `Listing` when no stored skill holds a special character; every listed record is the stored row for its id; the table is only read |
| `Operations.ResumeStore.Create` | operations.py:24-29 | the new fields and the result are those of `Inserted` on the old fields; the invariant is kept |
| `Operations.ResumeStore.Update` | operations.py:32-40 | the new fields and the result are those of `Patched` on the old fields; the invariant is kept |
| `Operations.ResumeStore.Delete` | operations.py:43-49 | the new fields and the result are those of `Removed` on the old fields; the invariant is kept |
| `Auth.AuthenticateUser` | auth.py:17-22 | returns the user record if and only if the username is in the table and the password equals the stored one exactly; otherwise no user (the source's False) |
| `Auth.OnlyAdminSecret` | constants.py:21-26 | only admin / secret is accepted, and an unknown username gives the same result as a wrong password |
| `Auth.Lifetime` | auth.py:26 | a missing or zero delta gives the default of 30 minutes; any other delta is used as given |
| `Auth.AccessTokenClaims` | auth.py:24-27 | the claims are the caller's data plus `exp` = now + lifetime; `exp` replaces any `exp` in the data and every other claim is kept |
| `Auth.CreateAccessToken` | auth.py:24-29 | with a faithful codec the token fails to decode from `exp` on, and before `exp` decodes to the claims when the data holds only a string `sub` |
| `Auth.Subject` | auth.py:39 | a subject exists exactly when `sub` is present and is a string |
| `Auth.GetCurrentUser` | auth.py:31-48 | every failure is the single 401 exception; it fails when the token does not decode, when the payload has no `sub`, or when `sub` names no user; otherwise it returns that user's record |
| `Auth.IssuedTokenResolves` | auth.py:24-48 | with a faithful codec, a token issued for a known user resolves to that user's record at any time before it expires |
| `Auth.ExpiredTokenRejected` | auth.py:24-48 | with a faithful codec, any issued token is rejected with the 401 once its `exp` has passed |
| `Auth.LoginTokenResolves` | main.py:26-36 | a correct username and password yield a token that resolves to the same user for the next 30 minutes |

## Findings

| source | as written | input that shows it | evidently intended | confidence | as-written member | corrected member |
|---|---|---|---|---|---|---|
| operations.py:18 | the skill filter tests the searched skill against each stored skill used as an ILIKE pattern, so `%`, `_` and `\` in a stored skill act as wildcards | a resume whose skills are `["%"]` is returned for a search on "java" (likewise `"Py_hon"` for "python") | return only resumes holding the searched skill, compared ignoring case | medium, not executed | `SkillFilter.WildcardSkillMatchesAnySearch` | `SkillFilter.Filter` |

`Operations.Listing` is the listing built on the corrected `SkillFilter.Filter`; `Operations.ResumeStore.List` keeps the query as written. `SkillFilter.FilterAgreesOnLiteralSkills` and `Operations.ListingAgreesOnLiteralSkills` prove that the two return the same rows whenever no stored skill holds `%`, `_` or `\`.

## Left out

- JWT internals: HS256 signing, base64url and the library's checks are inside the abstract `JwtCodec`. Tampered and malformed tokens are whatever its `decode` rejects. The lemmas assume only `Auth.Faithful`, as a precondition.
- Auth.Faithful: says nothing about decoding a live payload that holds claims other than `sub` and `exp`; the library would also check `aud`, `nbf`, `iat` and `iss`, which the service never sets. Nor does it say anything about a payload whose `exp` is not a number (a numeric string, a null), which the service never issues either.
- SQLAlchemy, asyncpg and PostgreSQL mechanics: async sessions, `commit`/`refresh`, transaction isolation and concurrent requests. Each operation is one atomic step on an in-memory table.
- Row order: without ORDER BY, PostgreSQL returns rows in an unspecified order, and an UPDATE may move a row. The model lists rows in insertion order, and an updated row keeps its place.
- ILIKE case folding is ASCII only; PostgreSQL's depends on the locale.
- A stored skill ending in a lone `\` may make PostgreSQL raise an error, when matching reaches that escape before another stored skill has matched. `SkillFilter.ILike` treats it as a literal backslash.
- Email syntax validation (`EmailStr`) and the rest of pydantic's payload validation are not modelled; email is an opaque string.
- The contents of the `education` and `work_experience` JSON columns are opaque values.
- Times are whole seconds: `datetime.utcnow()` becomes a parameter, and sub-second parts of a `timedelta` are not modelled.
- A `sub` claim that is a number: the model rejects it, as recent PyJWT versions do at decode. An older library with pydantic would convert it to a string.
- The reflective `setattr` loop over the sent fields is modelled as the explicit function `Schemas.Merge`.
- Ids are unbounded integers. The 32-bit INTEGER column, and a sequence that runs past its maximum, are not modelled.
- `limit=None` (no limit) is not modelled; the route always passes an integer.
- main.py: routing, dependency injection, startup table creation, and the mapping of None/False to 404. A missing `Authorization` header, refused by the framework before `get_current_user` runs, is also left out. The login route appears only through `Auth.LoginTokenResolves`.
- data_migration.py: database creation, random dummy data and interactive input.
- constants.py and database.py: environment configuration and connection setup. The constant values (30 minutes, the admin / secret table) are model constants.
