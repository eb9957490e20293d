# Contacts address book: the repository layer in Dafny

This project models the repository layer of a contacts address-book web API.
The layer has two parts:

- **Contact repository** (`src/repository/contacts.py`). Every contact belongs to
  one user through its `user_id`. The repository offers a paginated listing,
  a lookup by id that checks ownership, create, update and delete, a search
  with optional case-insensitive terms, and a list of the birthdays in the
  coming week.
- **User repository** (`src/repository/users.py`). It looks users up by their
  unique email, creates users, and overwrites single fields of a stored user:
  the refresh token, the `confirmed` flag and the avatar URL.

Each table is a sequence of rows in table order (`Contacts.ContactTable.rows`,
`Users.UserTable.rows`), with a `nextId` counter standing for the id sequence.
Queries are functions over the rows. The operations that change a table are
methods of the table class. The birthday list is a method with a loop, as in
the source. The caller is given by their user id. The current date is a
parameter of type `Dates.Date`.

Modules:

- `Wrappers`: `Option` (Python's `None`) and `Result` (a value or a raised exception).
- `Dates`: Python's `datetime.date`. It covers validity, comparison,
  `replace(year=...)`, adding days (`date + timedelta`) and the ordinal day
  number. It proves that date comparison agrees with the ordinal order, and
  that adding *n* days moves the ordinal by *n* or raises `OverflowError`.
- `Patterns`: PostgreSQL `LIKE`/`ILIKE`. `%` matches any run of characters,
  `_` matches any one character, `\` escapes the next character, and ILIKE
  lower-cases both sides. The module also defines substring search.
- `Sequences`: a `WHERE`-style filter and `.first()`. The lemmas cover membership
  and order ("subsequence of the table").
- `Contacts`, `Users`: the two repositories.

Exceptions the source raises are modelled as `Err` results:

- `get_birthdays` raises `OverflowError` when today plus seven days passes
  9999-12-31.
- `get_birthdays` raises `ValueError` when a contact born on 29 February is
  moved into a common year.
- `create_user` with an email that is already stored violates the unique
  constraint.
- `confirmed_email` and `update_avatar` fail with `AttributeError` when no
  user has that email.

In each of these cases the table is unchanged.

## Model

| member | source | states |
|---|---|---|
| `Sequences.Filter` | src/repository/contacts.py:172 | a filter keeps exactly the rows that pass the test, each as many times as the table holds it, in table order |
| `Sequences.FilterWhen` | src/repository/contacts.py:174-179 | a filter followed by a second filter that is added only when its term applies is one filter by both tests |
| `Sequences.FirstIndex` | src/repository/contacts.py:47 | `.first()` gives the position of the first row that passes the test, or None exactly when no row passes it |
| `Contacts.Owned` | src/repository/contacts.py:135 | `filter(Contact.user_id == user.id)` keeps exactly the caller's contacts, in table order; a NULL `user_id` belongs to nobody; each of the caller's rows is kept as many times as the table holds it |
| `Contacts.GetContacts` | src/repository/contacts.py:31 | the result is the caller's contacts from position `skip` on, at most `limit` of them, in table order; its length is exact and every element belongs to the caller |
| `Contacts.GetContact` | src/repository/contacts.py:47 | a contact is returned exactly when some row has that id and belongs to the caller; it is the first such row |
| `Contacts.GetContactFindsOwned` | src/repository/contacts.py:47 | when ids are unique, the caller's contact with that id is the one returned |
| `Contacts.GetContactHidesOthers` | src/repository/contacts.py:47 | a contact with that id that belongs to another user gives None |
| `Contacts.ContactTable.CreateContact` | src/repository/contacts.py:64-69 | the table grows by exactly one row at the end; it has a fresh id, the six body fields and the caller as owner; the lookup then finds it; the old rows are unchanged |
| `Contacts.RemoveAtKeepsOthers` | src/repository/contacts.py:86-91 | removing a row keeps every row with another id and keeps ids unique |
| `Contacts.ContactTable.RemoveContact` | src/repository/contacts.py:86-91 | returns what `get_contact` would return; if that is a contact, only that row is deleted, otherwise the table is unchanged; afterwards the lookup gives None |
| `Contacts.ApplyBody` | src/repository/contacts.py:113-118 | the six assignments give the record the body's fields and keep its id and owner; a body equal to the record's fields changes nothing |
| `Contacts.ApplyBodyInPlace` | src/repository/contacts.py:113-118 | overwriting the six body fields keeps the id, the owner and unique ids, and the lookup returns the updated row |
| `Contacts.ContactTable.UpdateContact` | src/repository/contacts.py:110-120 | if the caller owns a contact with that id, only that row changes: its six fields take the body's values and it is returned; otherwise None and no change |
| `Dates.ReplaceYear` | src/repository/contacts.py:140-141 | `replace(year=y)` keeps month and day, and fails exactly for 29 February in a common year |
| `Dates.LessEqIsDayOrder` | src/repository/contacts.py:142 | Python's comparison of dates is the order of their ordinal day numbers |
| `Dates.AddDaysOrdinal` | src/repository/contacts.py:137 | `today + timedelta(days=n)` adds exactly n to the ordinal, and raises OverflowError exactly when that passes 9999-12-31 |
| `Dates.WindowInDays` | src/repository/contacts.py:137-142 | `today <= b <= today + n days` holds exactly when b is 0 to n days after today |
| `Contacts.Upcoming` | src/repository/contacts.py:139-143 | the scan succeeds exactly when every birthday can be moved into today's year; it keeps exactly the contacts whose moved birthday lies in the window, each as often as it occurs, in order |
| `Contacts.UpcomingStep` | src/repository/contacts.py:139-143 | one iteration: a contact whose birthday cannot be moved raises, one in the window is appended, any other is skipped |
| `Contacts.Birthdays` | src/repository/contacts.py:135-144 | `get_birthdays` raises OverflowError exactly when today + 7 days passes 9999-12-31; on success it returns only contacts of the caller |
| `Contacts.GetBirthdays` | src/repository/contacts.py:135-144 | the loop with `append` computes `Birthdays` (the end date first, then one pass over the caller's contacts) |
| `Contacts.BirthdaysSucceeds` | src/repository/contacts.py:136-141 | `get_birthdays` succeeds exactly when today + 7 days is a valid date and no contact of the caller was born on 29 February while today's year is common |
| `Contacts.BirthdaysWindow` | src/repository/contacts.py:135-144 | on success, the result holds exactly the caller's contacts whose birthday in today's year is 0 to 7 days after today, both ends included, each as often as the table holds it, in table order |
| `Contacts.BirthdaysStayInYear` | src/repository/contacts.py:140-142 | a returned birthday always lies in today's year; in the last week of December a January birthday is never returned |
| `Contacts.BirthdaysMissNewYear` | src/repository/contacts.py:137-142 | as written, on 2024-12-28 a contact born on 2 January is not returned, although 2025-01-02 is five days later |
| `Dates.WithinAYear` | src/repository/contacts.py:137 | a date at most 365 days ahead is in the same year or the next |
| `Contacts.NearBirthdays` | src/repository/contacts.py:135-144 | the corrected `get_birthdays` raises only OverflowError, exactly when today + 7 days passes 9999-12-31, and returns rows of the table in table order |
| `Contacts.NearBirthdaysIsNextWeek` | src/repository/contacts.py:125-144 | the corrected `get_birthdays` returns exactly the caller's contacts whose month and day fall on one of the next seven days, today included, each as often as the table holds it |
| `Patterns.ILikeIsCaseInsensitiveContains` | src/repository/contacts.py:175 | for a term without `%`, `_` or `\`, `field ILIKE '%term%'` holds exactly when the lower-cased field contains the lower-cased term |
| `Patterns.UnderscoreTermMatchesAnyCharacter` | src/repository/contacts.py:175 | the unescaped term `_` matches "Bob" although "Bob" contains no underscore |
| `Patterns.ILikeEscapedIsCaseInsensitiveContains` | src/repository/contacts.py:175 | with the term's metacharacters escaped, the ILIKE test is case-insensitive substring search for every term |
| `Contacts.FindContacts` | src/repository/contacts.py:172-182 | the search keeps exactly the caller's contacts that pass the ILIKE test of every non-empty term, in table order; the chain of filters is one filter by all the tests, so each match is kept as often as the table holds it; with no terms (None or "") it returns all the caller's contacts |
| `Contacts.FindContactsWithoutMetaIsSubstringSearch` | src/repository/contacts.py:174-179 | for terms without `%`, `_` or `\`, the search as written equals the escaped search and keeps exactly the caller's contacts whose fields contain every non-empty term, ignoring the case of A-Z |
| `Contacts.FindContactsUnderscoreMatchesAnyName` | src/repository/contacts.py:174-175 | as written, the first-name term `_` returns a contact named "Bob" whose name does not contain the term |
| `Contacts.FindContactsEscaped` | src/repository/contacts.py:172-182 | the corrected search keeps exactly the caller's contacts that pass the escaped ILIKE test of every non-empty term, each as often as the table holds it, in table order |
| `Contacts.FindContactsEscapedIsSubstringSearch` | src/repository/contacts.py:172-182 | the corrected search keeps exactly the caller's contacts whose fields contain every non-empty term, ignoring the case of A-Z |
| `Contacts.FindContactsEscapedUnderscoreIsLiteral` | src/repository/contacts.py:174-175 | the corrected search with term `_` does not return "Bob" |
| `Users.GetUserByEmail` | src/repository/users.py:18 | returns None exactly when no user has that email; otherwise it returns the first user whose email is equal |
| `Users.GetUserByEmailUnique` | src/database/models.py:31 | when emails are unique, a stored user is exactly what a lookup by its email returns |
| `Users.UserTable.CreateUser` | src/repository/users.py:36-46 | stores exactly one new row at the end. The row copies username, email and password, takes the avatar the lookup gave (None when it failed), is unconfirmed and has no refresh token. An email already stored is refused and nothing changes |
| `Users.WithRefreshToken` | src/repository/users.py:59-60 | only the refresh token can change, only in a row with that id, and only to the given value; a stored user with that id gets it |
| `Users.RefreshTokenSets` | src/repository/users.py:59-60 | the stored user with that id gets exactly the given refresh token (None clears it), whatever the caller's copy of the user holds; no other field and no other user changes; an id no row has changes nothing |
| `Users.RefreshTokenLastWriteWins` | src/repository/users.py:59-60 | two writes of the refresh token leave the second one |
| `Users.UserTable.UpdateToken` | src/repository/users.py:59-60 | the table afterwards is the old table with that user's refresh token overwritten |
| `Users.WithConfirmed` | src/repository/users.py:72-74 | only the `confirmed` flag can change, only in a row with that email, and only to true; a user with that email gets it |
| `Users.ConfirmedOnlyGrows` | src/repository/users.py:72-74 | confirmation sets the flag of the user with that email, never clears a flag and changes no other field |
| `Users.ConfirmedIdempotent` | src/repository/users.py:72-74 | confirming twice leaves the same table as confirming once |
| `Users.ConfirmedAlreadyConfirmed` | src/repository/users.py:73 | confirming a user who is already confirmed changes nothing |
| `Users.UserTable.ConfirmedEmail` | src/repository/users.py:72-74 | confirms the user with that email; when there is none it fails with UserNotFound and changes nothing |
| `Users.WithAvatar` | src/repository/users.py:92-95 | only the avatar can change, only in a row with that email, and only to the given URL; a user with that email gets it |
| `Users.AvatarSets` | src/repository/users.py:92-95 | after the update, the lookup by email returns the user with the new avatar; rows with other emails are unchanged |
| `Users.UserTable.UpdateAvatar` | src/repository/users.py:92-95 | sets the avatar of the user with that email and returns that user; fails with UserNotFound and changes nothing when there is none |

## Findings

| source | as written | input that shows it | evidently intended | confidence | as-written member | corrected member |
|---|---|---|---|---|---|---|
| src/repository/contacts.py:174-179 | each search term is put into the pattern `f"%{term}%"` without escaping, so `%`, `_` and `\` in the term act as LIKE metacharacters | `find_contacts(firstname="_")` over a contact named "Bob" returns that contact | a contact is kept only when its field contains the term, ignoring case | medium, not executed | `Contacts.FindContactsUnderscoreMatchesAnyName` | `Contacts.FindContactsEscapedIsSubstringSearch` |
| src/repository/contacts.py:137-142 | every birthday is moved into today's year, so a window that runs into January never meets a January birthday; the docstring (lines 125 and 132) promises the birthdays of the next seven days | `get_birthdays` on 2024-12-28 for a contact born on 2 January returns nothing | a contact is returned when its month and day fall on one of the next seven days, in this year or the next; a 29 February birthday in a common year is not due and raises nothing | medium, not executed | `Contacts.BirthdaysMissNewYear` | `Contacts.NearBirthdaysIsNextWeek` |

## Left out

- HTTP routing, and the mapping of None to HTTP 404 in `src/routes/contacts.py`. These are controller code. The `/nearest_birthdays` route (lines 52-69) calls `get_birthdays`. The `/bday_soon` route (lines 179-196), whose handler is also named `nearest_birthdays`, calls `repository_contacts.birthdays`, which the repository does not define.
- The rate limiter. `fastapi_limiter` is a third-party library backed by Redis, and its counting logic is not in this code.
- Token issuing, verification and rotation. `src/services/auth.py` is not part of this model. The model covers only the refresh-token field they store (`update_token`).
- The Gravatar network call in `create_user`. Its outcome is the `avatar` parameter of `Users.UserTable.CreateUser`: an optional string, None when the lookup raised.
- The SQLAlchemy session: `add`, `delete`, `commit`, `refresh`, transactions and concurrent sessions. Each method is one atomic step on the in-memory table.
- `datetime.now()`: `today` is a parameter.
- The `created_at` columns. They take the database clock's value, and no operation reads them.
- Result order. SQL without `ORDER BY` does not fix an order; the model returns table order.
- Result order when several rows match a lookup: `.first()` is modelled as the first match in table order.
- Negative `skip` or `limit`: they are `nat` here. PostgreSQL rejects a negative OFFSET or LIMIT.
- Case folding beyond A-Z. PostgreSQL lower-cases according to the database locale; the model lower-cases ASCII letters only.
- A LIKE pattern that ends in a lone escape character is an error in PostgreSQL. The patterns `find_contacts` builds always end in `%`, so the model does not include that error.
- Column widths (`String(50)` and similar) and the request-body length checks. The libraries perform them, not the repository code.
- The request bodies carry a single `relationships` field. The pydantic schema declares it as `relationship`, while the repository reads `body.relationships`.
- `ondelete='CASCADE'` and the foreign key from `contacts.user_id` to `users.id`. Neither repository deletes users, and the model does not check that a contact's owner exists.
- `update_token` receives a user record. The model updates the stored row with that record's id, and does nothing when no row has that id, since a detached record's change is not written back.
- The id sequence. An insert refused by the unique constraint still spends an id, as a PostgreSQL sequence does. `Users.UserTable.CreateUser` advances `nextId` in both cases.
- The Alembic migration and the engine setup.
