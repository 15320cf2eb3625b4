# Phonebook directory service: a Dafny model

This project models the core of the secure variant of a small Flask phonebook
(`phonebook-app-secure.py`). It has three parts:

- **`validate_input`**: checks a name and an optional phone number, in a fixed
  order, and returns a verdict with a message.
- **The record operations**: `find_persons`, `insert_person`,
  `update_person` and `delete_person`, run against a MySQL table
  `phonebook(id AUTO_INCREMENT, name, number)`.
- **The gating in the four route handlers**: a handler reaches the store only
  after its input passes validation, and a blank search performs no query.

The table is an immutable sequence of `(id, name, number)` rows in store
order, plus the AUTO_INCREMENT counter. Each operation is a pure function.
It takes the table, the request fields and the state of the database
connection, and returns the new table with the message, or the result list
for a search. Each SQL statement in the source is given its exact meaning:

- `LOWER(name) LIKE '%kw%'` is a substring test on the lower-cased name.
- `LOWER(name) = key` with `fetchone()` returns the first matching row in
  store order.
- `UPDATE … WHERE id = x` and `DELETE … WHERE id = x` act on every row that
  carries id `x`.

Python's `str.strip`, `str.lower`, `str.title` and `str.isdigit` are defined
explicitly for ASCII text, in `text.dfy`.

Files and modules:

| file | module | contents |
|---|---|---|
| optional.dfy | `Optional` | `Option`, standing in for Python's `None` |
| text.dfy | `Text` | ASCII `strip`, `lower`, `title`, `isdigit`, substring test, and their laws |
| validation.dfy | `Validation` | `validate_input` |
| store.dfy | `Store` | rows, table, connection outcome, the four operations, table invariant `Wf` |
| store_properties.dfy | `StoreProperties` | search order and contents, invariant preservation, exact effect of update and delete, round trips |
| routes.dfy | `Routes` | per-handler decision (`Decide*`), its execution (`Perform`), the invariant the routes keep |

The whole model keeps one invariant, `Routes.Sane`:

- ids are unique and below the counter;
- there is at most one row per lower-cased name;
- every name is stored stripped and lower-cased, and passes the name checks;
- every number is all digits and at least ten characters long.

Every route preserves it.

## Model

| member | source | states |
|---|---|---|
| `Validation.ValidateInput` | phonebook-app-secure.py:204-220 | A blank stripped name gives "Name cannot be empty" and an all-digit stripped name gives "Name should be text, not numbers", whatever the number. With a number supplied, the checks run blank, then non-digit, then shorter than 10, each with its own message. The result is `(True, "Valid input")` exactly when every check passes. |
| `Validation.NameChecksComeFirst` | phonebook-app-secure.py:206-210 | A name that fails a name check gets the same rejection with any phone argument, including none. |
| `Validation.ValidMeansLongDigitString` | phonebook-app-secure.py:212-220 | When the input is accepted with a number, the stripped number consists only of '0'..'9' and is at least 10 characters long. |
| `Validation.SupplyingNumberOnlyAddsChecks` | phonebook-app-secure.py:212-220 | Passing a number (as add and update do) can only turn an acceptance into a rejection. It never accepts a name that fails on its own (as delete validates it). |
| `Text.StripSpec` | phonebook-app-secure.py:206-213 | `strip()` returns the infix of its input that neither starts nor ends with whitespace, with only whitespace cut off on each side. It is empty exactly when the input is all whitespace. |
| `Text.LowerSpec` | phonebook-app-secure.py:98 | `lower()` maps each character independently, turning upper-case ASCII letters into lower-case ones and keeping everything else. |
| `Text.TitleSpec` | phonebook-app-secure.py:102 | `title()` upper-cases a letter that starts a run of letters, lower-cases the other letters, and keeps every other character. |
| `Text.ContainsSpec` | phonebook-app-secure.py:97-98 | The substring test behind `LIKE '%kw%'` holds exactly when `kw` occurs at some position of the name. |
| `Text.StripOfLower` | phonebook-app-secure.py:102 | Lower-casing and stripping commute, so a stored `strip().lower()` name still strips to itself when it is displayed. |
| `Text.TitleOfLower` | phonebook-app-secure.py:102 | Title-casing ignores the letter case of its input, so a name stored lower-cased is displayed as the user's title-cased input. |
| `Store.FirstMatch` | phonebook-app-secure.py:124-126 | The lookup returns the position of a row whose lower-cased name equals the key, with no earlier row matching. It returns nothing exactly when no row matches. |
| `Store.Hits` | phonebook-app-secure.py:97-102 | The displayed matches are never longer than the table and all carry an id. They are empty exactly when no lower-cased name contains the keyword. |
| `Store.Find` | phonebook-app-secure.py:87-109 | Search never returns an empty list. An unreachable database gives the `{'Database Error','Connection failed'}` sentinel and a driver error gives `{'Error','Database operation failed'}`. When connected, the result is the single `{'No Result','No Result'}` entry exactly when nothing matches, and otherwise the matching rows. |
| `Store.Insert` | phonebook-app-secure.py:114-139 | A failed connection leaves the table unchanged with "Database connection failed". A case-insensitive name hit leaves the table unchanged with "already exists", naming the first matching row title-cased. Otherwise exactly one row is appended, with the counter's id, name `strip().lower()` and the given number; the counter advances and the success message follows. |
| `Store.UpdateWhereId` | phonebook-app-secure.py:164-165 | `UPDATE … WHERE id = x` rewrites exactly the rows with id `x` and leaves the others unchanged, in place. |
| `Store.Update` | phonebook-app-secure.py:144-169 | A failed connection leaves the table unchanged. A miss leaves it unchanged with "does not exist". A hit keeps the matched row's id and stored name, replaces its number, and leaves every row with another id as it was. |
| `Store.DeleteWhereId` | phonebook-app-secure.py:194-195 | `DELETE … WHERE id = x` leaves no row with id `x` and removes at least one row when `x` is present. |
| `Store.Delete` | phonebook-app-secure.py:174-199 | A failed connection leaves the table unchanged. A miss leaves it unchanged with "does not exist, no need to delete". A hit removes the matched row's id from the table with the success message. |
| `StoreProperties.HitsMembership` | phonebook-app-secure.py:101-102 | An entry is in the search result exactly when some row's lower-cased name contains the keyword and the entry is that row with its name stripped and title-cased, its number unchanged and its id. |
| `StoreProperties.HitsConcat` | phonebook-app-secure.py:97-102 | Search keeps store order: the hits of `a + b` are the hits of `a` followed by the hits of `b`. |
| `StoreProperties.FindResult` | phonebook-app-secure.py:101-109 | A connected search answers either with exactly the "No Result" sentinel or with a list that does not contain it. In the second case, its members are exactly the displayed matching rows. |
| `StoreProperties.InsertPreservesWf` | phonebook-app-secure.py:124-135 | Insert keeps ids unique and below the counter, and keeps at most one row per lower-cased name. |
| `StoreProperties.InsertTwiceConflicts` | phonebook-app-secure.py:124-131 | Adding a name again in any letter case is refused with "already exists", naming the stored row, and leaves the table, with its original number, unchanged. |
| `StoreProperties.InsertThenFind` | phonebook-app-secure.py:98-135 | After a successful insert, searching for any part of the name finds the new row, shown with its id, the title-cased name and the exact number. |
| `StoreProperties.UpdateHitChangesOnlyNumber` | phonebook-app-secure.py:163-165 | In a well-formed table, an update hit at row `k` gives exactly the old table with row `k`'s number replaced. |
| `StoreProperties.UpdateThenFind` | phonebook-app-secure.py:154-165 | After an update hit, a search for the same name shows the matched row, with its id and display name, carrying the new number. |
| `StoreProperties.UpdatePreservesWf` | phonebook-app-secure.py:154-165 | Update keeps the table well formed. |
| `StoreProperties.DeleteUniqueId` | phonebook-app-secure.py:194-195 | With unique ids, deleting by row `k`'s id removes exactly row `k` and keeps the others in order. |
| `StoreProperties.DeleteHitRemovesRow` | phonebook-app-secure.py:184-199 | In a well-formed table, a delete hit at row `k` leaves exactly the other rows in order, with the success message. |
| `StoreProperties.DeleteThenFind` | phonebook-app-secure.py:184-195 | After a delete hit, no search result, for any keyword, carries the deleted row's id. |
| `StoreProperties.DeletePreservesWf` | phonebook-app-secure.py:184-195 | Delete keeps the table well formed. |
| `StoreProperties.DeleteTwice` | phonebook-app-secure.py:184-191 | Repeating a delete finds nothing to delete ("does not exist, no need to delete") and changes nothing more; a failed connection fails the same way both times. |
| `Routes.DecideFind` | phonebook-app-secure.py:222-234 | A GET shows the form. A POST with a blank stripped keyword asks for a keyword and makes no query. Any other POST searches with the stripped keyword. |
| `Routes.DecideAdd` | phonebook-app-secure.py:236-265 | The handler reaches `insert_person` exactly when the stripped name and number pass `validate_input`, and then passes them stripped. Otherwise it shows the validation message. |
| `Routes.DecideUpdate` | phonebook-app-secure.py:267-296 | The handler reaches `update_person` exactly when the stripped name and number pass `validate_input`. Otherwise it shows the validation message. |
| `Routes.DecideDelete` | phonebook-app-secure.py:298-323 | The handler reaches `delete_person` exactly when the stripped name passes the name checks; no number is checked. Otherwise it shows the validation message. |
| `Routes.Perform` | phonebook-app-secure.py:225-318 | A decision that does not reach the store leaves the table unchanged and shows no result. A search never changes the table and always lists at least one entry. With the database unreachable or failing, no decision changes the table. |
| `Routes.GatedActionsIgnoreStore` | phonebook-app-secure.py:244-253 | A decision that does not reach the store gives the same response whatever the database's state. |
| `Routes.DecisionsAreCleared` | phonebook-app-secure.py:240-253 | Every insert or update a handler decides on carries a name and number that pass validation, and a number that is already stripped. |
| `Routes.RoutesKeepSane` | phonebook-app-secure.py:236-318 | Every route, on every request and connection outcome, keeps ids unique and below the counter and at most one row per lower-cased name. Stored names stay stripped, lower-cased and valid; numbers stay all digits and at least 10 long. |

## Left out

- Flask routing and rendering (`render_template`, `flash`, the 404 and 500
  handlers): a page is reduced to which outcome it shows (`Routes.Page`).
- The MySQL driver, cursors, connection handling and `init_phonebook_db`: the
  table is an abstract row sequence. Whether a connection can be opened, and
  whether the driver raises, is an input (`Store.Connection`).
- Credential retrieval through AWS SSM, logging and the environment
  configuration: these are I/O and foreign calls.
- Concurrency: each operation is atomic in the model. In the source, the
  check and the write are separate statements, so two concurrent requests
  can both pass the existence check. The uniqueness invariant is proved only
  for one request at a time.
- `phonebook-app.py`: the same operations built by string interpolation,
  whose meaning depends on how MySQL parses injected text. `security-test.py`:
  an HTTP client for a live server. Neither is part of this model.
- Store.Find: a `%`, `_` or `\` inside the keyword is matched literally.
  MySQL's `LIKE` treats them as wildcards and as the escape character.
- Store.FirstMatch: takes the first match in store order. Without
  `ORDER BY`, MySQL does not promise an order. Under the table invariant at
  most one row matches, so the order does not matter there.
- Store.Insert: `VARCHAR(100)` overflow and exhaustion of the `INT`
  AUTO_INCREMENT counter are not modelled. Both are database errors that
  the source reports as a generic failure. Ids are unbounded integers.
- Store.Delete: a driver error is modelled as leaving the table unchanged.
  A failure after the write was committed (under autocommit) is not
  modelled. The same holds for `Store.Insert` and `Store.Update`.
- Validation.ValidateInput: the name is always a string, since every caller
  passes one, so a `None` name is not modelled.
- Text.StripSpec: text is ASCII. Python's `strip`, `lower`, `title` and
  `isdigit` also handle Unicode whitespace, non-ASCII letters and non-ASCII
  digits. MySQL's `utf8mb4_unicode_ci` collation (accent folding, trailing
  space padding in `=`) is reduced to ASCII lower-casing.
