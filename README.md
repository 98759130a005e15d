# TechSolutions Pro service catalog, in Dafny

TechSolutions Pro is a single-page site for a services catalog. All of its
state lives in the browser, in module-level variables of `frontend/js/app.js`:

- the `services` array of listings `{id, name, icon, description, price, stock, promotion}`;
- the edit cursor `editingServiceId`, the id of the listing loaded into the admin form;
- the flag `isAdmin`, set by the login check.

The admin panel creates, updates and deletes listings through one form and two
buttons per row. The quote flow looks a listing up by id or by name. The
detail view colours the stock figure in three tiers.

This project models that state and the logic of the handlers that change it.
It proves what each handler does to the catalog, that no handler introduces a
duplicate id, and how the edit cursor behaves around deletes.

Files and modules:

- `search.dfy`, module `Search`: `findIndex`, `find` and `filter` over a
  sequence, with the first-match and order-keeping contracts JavaScript
  gives them.
- `jsstring.dfy`, module `JsString`: `String.prototype.trim`, with the
  ECMAScript white-space set written out.
- `catalog.dfy`, module `Catalog`: the listing record and the form draft.
  Also the id lookups, the id assignment `Math.max(...ids) + 1`, the
  delete filter, the quote-flow lookup, the stock tiers, and the lemmas
  that each change keeps ids distinct.
- `session.dfy`, module `Session`: the user record, the credential match,
  and the admin flag after a login attempt.
- `app.dfy`, module `App`: class `AppState` holds the three globals. Its
  methods are the handlers `handleServiceSubmit`, `editService`,
  `deleteService`, `cancelEdit`, `logout` and the login check. Two client
  methods replay the edit-then-delete sequence and the id-0 edit against
  these contracts.

The JavaScript array is a growable list that the handlers write in place
(`services[index] = …`, `push`) or reassign (`filter`). It is a `seq` field
of `AppState` that the methods reassign. The confirmation dialog of delete
is a boolean parameter. The fetched service list is an optional input:
`None` stands for a failed fetch or a missing field. The fetched user list is
an input of the login method.

Edge behaviours of the code that the model keeps as they are:

- On an empty catalog, create computes `Math.max()`, which is `-Infinity`,
  so there is no integer id. The model returns `NoValidId` and writes
  nothing.
- `logout` clears the cursor but leaves `isAdmin` as it was.
- The medium stock tier is `stock > 2` below the high tier, so 3 to 5.
- Updating through a cursor whose id is gone, and deleting an absent id,
  do nothing and report no error. The model's `StaleCursor` outcome names
  the silent no-op of the update.
- `deleteService` leaves the cursor alone, even when it names the deleted
  id.
- `if (editingServiceId)` treats the id 0 as create mode, and the create
  branch leaves the cursor set.

## Model

| member | source | states |
|---|---|---|
| `Search.FindIndex` | frontend/js/app.js:492 | `findIndex` returns -1 exactly when no element satisfies the callback, and otherwise an index whose element satisfies it and before which none does |
| `Search.Find` | frontend/js/app.js:391-393 | `find` returns nothing exactly when no element satisfies the callback, and otherwise the element at the first position that does |
| `Search.Filter` | frontend/js/app.js:530 | `filter` keeps exactly the elements that satisfy the callback and never lengthens the list |
| `Search.FilterAppend` | frontend/js/app.js:530 | filtering a concatenation is the concatenation of the filtered parts, so survivors keep their relative order |
| `Search.FilterAllKept` | frontend/js/app.js:530 | when every element passes the callback, `filter` returns the list unchanged |
| `Search.FilterIdempotent` | frontend/js/app.js:530 | filtering a second time with the same callback changes nothing |
| `JsString.TrimStart` | frontend/js/app.js:208-209 | the result is a suffix of the input: everything removed is white space, and the result is empty or starts with a non-white-space character |
| `JsString.TrimEnd` | frontend/js/app.js:208-209 | the result is a prefix of the input: everything removed is white space, and the result is empty or ends with a non-white-space character |
| `JsString.Trim` | frontend/js/app.js:208-209 | `trim` returns an infix of the input with only white space outside it, and the result neither starts nor ends with white space |
| `JsString.TrimStartPadded` | frontend/js/app.js:208-209 | leading white space in front of a string that starts with non-white-space is exactly what is removed |
| `JsString.TrimEndPadded` | frontend/js/app.js:208-209 | trailing white space after a string that ends with non-white-space is exactly what is removed |
| `JsString.TrimPadded` | frontend/js/app.js:208-209 | a string with no white space at its ends, padded with white space on both sides, trims back to itself, so the contract of `Trim` determines its result |
| `JsString.TrimIdempotent` | frontend/js/app.js:208-209 | trimming twice gives the same as trimming once |
| `Catalog.IndexOfId` | frontend/js/app.js:492 | the update branch's search gives -1 exactly when no record has the id, and otherwise the first position holding the id |
| `Catalog.FindById` | frontend/js/app.js:512 | the edit lookup finds nothing exactly when no record has the id, and otherwise a record of the catalog with that id |
| `Catalog.FindByName` | frontend/js/app.js:393 | the name lookup finds nothing exactly when no record has the name, and otherwise the first record with the name, so later duplicates are never found |
| `Catalog.MaxId` | frontend/js/app.js:498 | `Math.max` over the ids of a non-empty catalog is an id of the catalog and at least every id |
| `Catalog.NextId` | frontend/js/app.js:498 | there is no new id exactly when the catalog is empty (`Math.max()` is `-Infinity`); otherwise it is one past an existing id and larger than every id, so it is fresh |
| `Catalog.Without` | frontend/js/app.js:530 | the delete filter leaves no record with the id, keeps every record with another id, and adds nothing |
| `Catalog.CreateAppendsFresh` | frontend/js/app.js:496-500 | on a non-empty catalog, create appends exactly one record after the unchanged old ones; its id is absent from the old catalog, and distinct ids stay distinct |
| `Catalog.ReplaceKeepsIds` | frontend/js/app.js:492-493 | replacing the record at an index by one carrying the same id leaves every position's id as it was, so distinct ids stay distinct |
| `Catalog.FilterKeepsUnique` | frontend/js/app.js:530 | filtering a catalog with distinct ids gives one with distinct ids |
| `Catalog.DeleteProperties` | frontend/js/app.js:528-535 | after delete the id cannot be found; a second delete of the id changes nothing; survivors keep their order; distinct ids stay distinct |
| `Catalog.DeleteAbsent` | frontend/js/app.js:530 | deleting an id no record carries leaves the catalog unchanged |
| `Catalog.StaleAfterDelete` | frontend/js/app.js:492 | after the id is deleted, the update branch's search for it gives -1 |
| `Catalog.LookupForQuote` | frontend/js/app.js:389-394 | with an id that is present and not 0, the quote lookup finds the first record with that id, or nothing exactly when the id is absent; otherwise it finds the first record with the name, or nothing exactly when no record has it |
| `Catalog.TierOf` | frontend/js/app.js:348 | the stock tier is high exactly above 5, medium exactly for 3 to 5, low exactly at 2 and below |
| `Catalog.TierColor` | frontend/js/app.js:348 | the detail view paints high stock green (`#28a745`), medium yellow (`#ffc107`) and low red (`#dc3545`), each colour for exactly one tier |
| `Catalog.TierProperties` | frontend/js/app.js:348 | more stock never gives a lower tier, and different tiers get different colours |
| `Session.Authenticate` | frontend/js/app.js:208-219 | the login lookup succeeds exactly when some user's username and password equal the trimmed inputs, and then returns the first such user |
| `Session.AdminAfterLogin` | frontend/js/app.js:219-240 | on no match the admin flag keeps its value; on a match it becomes whether the first matching user's role is "administrator", so a standard user's login turns it off |
| `Session.TrimmedPaddedUsername` | frontend/js/app.js:208 | the username input " admin" followed by a tab trims to "admin" |
| `Session.TrimmedPaddedPassword` | frontend/js/app.js:209 | the password input "admin123" followed by a newline trims to "admin123" |
| `Session.AuthenticateFindsFirst` | frontend/js/app.js:219 | when the user at a position matches the trimmed inputs and no earlier user does, the login finds exactly that user |
| `Session.AdminLoginAccepted` | frontend/js/app.js:219-230 | with the account admin/admin123 of role "administrator" anywhere in the list and no earlier user with those credentials, any inputs that trim to admin/admin123 set the admin flag, whatever it was |
| `Session.AdminLoginRefused` | frontend/js/app.js:219-239 | when every user named admin has the password admin123, a login as admin with any password that does not trim to admin123 finds no user and leaves the admin flag unchanged |
| `App.IsEditMode` | frontend/js/app.js:490 | the submit is in create mode exactly when the cursor is falsy: null or the id 0 |
| `App.AppState.constructor` | frontend/js/app.js:2-4 | the catalog starts empty and the admin flag false (lines 2 and 4), and the cursor null (line 77) |
| `App.AppState.LoadDefaultData` | frontend/js/app.js:43-73 | the catalog becomes the loaded service list, or the empty list when loading failed or the list is missing |
| `App.AppState.SubmitService` | frontend/js/app.js:490-500 | with a truthy cursor, the first record with the cursor's id is replaced by the draft under that id and the cursor is cleared; when no record has that id, nothing is written and the cursor is still cleared. Otherwise the draft is appended under a fresh id one past the largest, and the cursor is left as it was; on an empty catalog nothing is written. In every case distinct ids stay distinct |
| `App.AppState.EditService` | frontend/js/app.js:511-515 | the cursor becomes the id when a record carries it; otherwise it is unchanged |
| `App.AppState.DeleteService` | frontend/js/app.js:528-535 | with confirmation, the catalog becomes the delete filter of the old one, so the id is gone; without it, nothing changes. The cursor is untouched, and distinct ids stay distinct |
| `App.AppState.CancelEdit` | frontend/js/app.js:537-541 | the cursor is reset to null |
| `App.AppState.Logout` | frontend/js/app.js:270-292 | the cursor is reset to null; the admin flag and the catalog are unchanged |
| `App.AppState.Login` | frontend/js/app.js:217-240 | login succeeds exactly when `Authenticate` finds a user, and the admin flag becomes `AdminAfterLogin` of the old flag: the first matching user's role decides it, and on failure it is unchanged |
| `App.StaleEditScenario` | frontend/js/app.js:490-535 | edit an id, delete it with confirmation, then submit: the submit writes nothing and the id stays gone; the catalog is the delete filter of the original, and the cursor ends up null |
| `App.ZeroIdEditScenario` | frontend/js/app.js:490-515 | editing the record with id 0 and submitting appends a new record under a positive id instead of replacing it, and the cursor stays 0 |

## Left out

- `App.AppState.SubmitService`: on an empty catalog the source appends the draft under the id `-Infinity`, and every later create repeats that id. Ids here are integers, so the model reports `NoValidId` and writes nothing.
- `App.AppState.SubmitService`: when the cursor's id is absent, the source executes `services[-1] = …`, which adds a property named "-1" to the array object. That property is invisible to `length`, `map`, `filter` and `forEach`, so the model writes nothing.
- `App.AppState.Login`: the source's check runs inside the `.then` of the user-list promise. The model runs it synchronously on the loaded list. A loaded document without a `users` field makes the source throw, which its `.catch` only logs; the model has no such case.
- Form parsing (`FormData`, `parseInt`, lines 480-488): the source can store `NaN` for price or stock. The model takes price and stock as integers from the caller.
- Number width: JavaScript numbers are doubles, so ids above 2^53 lose precision. The model uses unbounded integers.
- Rendering: `showSection`, `showLogin`, `showAdminPanel`, `closeModal`, `loadServices`, `createServiceCard`, `loadServicesTable`, and the HTML of `showServiceDetail` and `contactService`. This is presentation, one card or row per listing; only the stock tier and the quote lookup inside them are modelled.
- Price formatting with `toLocaleString('es-CO')`: it depends on a locale library that is not part of this model.
- Loading: the `fetch` calls and promises of `usersPromise`, `loadDatabase` and `loadDefaultData` are I/O. Their results are inputs here.
- The `users` global filled by `loadDefaultData` is never read, since login uses the separate user-list promise, so it is not modelled.
- `isLoggedIn` is never set to true, and `loginAgain` is an undeclared global that is only written. Neither is modelled.
- `handleContactSubmit`, `handleQuoteSubmit` and `closeQuoteForm` only show a fixed message, reset a form or switch sections.
- Form resets, the form title text, `alert` and `console` output are not modelled.
- `backend/app.py` is a one-route Flask stub with no logic. `backend/tests/test_health.py` requests `/api/health`, a route that stub does not define. Neither is modelled.
