# Involution: the account and list bookkeeping, modelled in Dafny

Involution is a small Flask web application. Users register and log in, search
an external movie and TV database, and keep two personal lists: a
"Watchlist" and "Favourites". This project models the bookkeeping behind the
request handlers in `main.py`. There are three database tables plus the login
session. Each handler is written as an operation on that state. The model also
covers the pure field extraction the detail pages apply to credit records.

The handlers are modelled **as written**, including their bugs. The bugs are
exhibited, and corrected definitions proved, under "## Findings".

Modules:

- `Wrappers`: `Option`.
- `Tables`: the rows of `users`, `list` and `list_item`. It also holds the
  queries the handlers run, written as functions over sequences of rows, and
  the well-formedness of each table.
  - `.first()` is taken to mean the earliest matching row in insertion order.
    SQL leaves this order unspecified without ORDER BY, so this is the model's
    assumption about the database. Row ids increase along each table, so this
    row is also the one with the lowest id.
- `Handlers`: class `App`. It holds the tables as `seq` fields, the session
  slot, and the next id of each table. Each handler is a method with the
  response it returns: a redirect (with its flash message), a rendered list,
  or a server error for an exception the handler does not catch.
  - `current_user` is the user named by the session. The anonymous user has
    no `id` or `password`, so a handler that reads them fails.
  - `generate_password_hash` is the function constant `hash`, and
    `check_password_hash(stored, pw)` is `stored == hash(pw)`.
- `Details`: the cast, genre, director and creator extraction of `find_movie`
  and `find_tv_show`, applied to already-decoded records.
- `Scenarios`: request sequences on a fresh application, with the responses
  they are guaranteed to produce.
- `Findings`: the four defects, each shown on a concrete input, next to the
  corrected behaviour and its proved property.

## Model

| member | source | states |
|---|---|---|
| Tables.FirstIndex | main.py:77 | a `.first()` query: the index of the earliest row matching the filter; none exactly when no row matches |
| Tables.Filter | main.py:189 | a `filter_by(...).all()` query: exactly the rows matching the filter, never more rows than the table |
| Tables.FilterAppend | main.py:189 | filtering a table with appended rows lists the old matches first, then the new ones |
| Tables.FilterNone | main.py:155 | a filter that no row satisfies gives the empty result |
| Tables.UsersAppend | main.py:92-100 | a user with the next id and an unused email keeps `users` well formed (unique emails, increasing ids) and can be found by id |
| Tables.ListsAppend | main.py:104-116 | two lists with the next two ids, owned by the newest user, keep `list` well formed |
| Tables.ItemsRemoveAt | main.py:200-201 | deleting any row keeps `list_item` well formed |
| Tables.UserWithEmail | main.py:129 | `User.query.filter_by(email=…).first()`: some user exactly when one has that email; the result has that email and is the earliest such row |
| Tables.UserWithId | main.py:29-31 | the current user looked up by the session's id: some user exactly when one has that id, and it is a row with that id |
| Tables.UserWithEmailIsOnly | main.py:39 | under the unique-email constraint, the email lookup returns the one row holding that email |
| Tables.FirstListOwnedBy | main.py:153 | `List.query.filter_by(user_id=…).first()`: some list exactly when the user owns one, and that list is the user's |
| Tables.FirstListNamed | main.py:154 | `List.query.filter_by(name=…).first()`: the earliest list with that name, whoever owns it |
| Tables.ResolveList | main.py:153-154 | the `A and B` list resolution: defined exactly when the user owns some list AND some list has the name; it is then the earliest list with that name, and the owner plays no part |
| Tables.ListsOwnedBy | main.py:105-111 | exactly the lists whose `user_id` is the given user |
| Tables.NewOwnerLists | main.py:104-116 | for a new user, the two lists appended at registration are all the lists that user owns, watchlist first |
| Tables.ItemsInList | main.py:155 | `ListItem.query.filter_by(list_id=…)`: exactly the items of that list |
| Tables.ItemsInListAppend | main.py:186-189 | an added row appears at the end of its own list and in no other list |
| Tables.ItemsInListRemoveAt | main.py:198-201 | deleting a row removes it from its own list and leaves the order of the rest of every list unchanged |
| Tables.ItemsInListRemoveOther | main.py:198-201 | deleting a row of another list leaves a list exactly as it was |
| Tables.RemoveFirstWithContent | main.py:198-200 | the delete: absent exactly when no row has the content id (delete of `None` fails); otherwise exactly the earliest such row is removed, whatever its list, and every other row stays in order |
| Handlers.App.constructor | main.py:61 | an empty database, nobody logged in, every table's ids starting at 1 |
| Handlers.App.Register | main.py:71-118 | a used email redirects to login with "already in use" and changes no table, session or counter. A fresh email appends exactly one user (name, email, `hash(password)`), logs that user in and appends "Watchlist" then "Favourites" owned by them, which are then all the lists they own. It redirects to search and never touches items |
| Handlers.App.CreateAccount | main.py:81-116 | the insertions of a fresh registration: the user row, the session and the two lists, with the next ids |
| Handlers.App.Login | main.py:122-141 | an unknown email gives "cannot find an account" and a failed hash check gives "Password incorrect", both keeping the session; only a matching pair logs in that user and redirects to search |
| Handlers.App.Logout | main.py:145-148 | the session is cleared and the response redirects to search |
| Handlers.App.Watchlist | main.py:151-158 | anonymous fails and an unresolved "Watchlist" fails; otherwise it renders the resolved list with exactly its items; nothing changes |
| Handlers.App.Favourites | main.py:206-215 | as Watchlist for "Favourites" |
| Handlers.App.AppendItem | main.py:178-187 | one new row with the next id is appended, the item counter advances by one, and the row ends the target list's items |
| Handlers.App.AddToWatchlist | main.py:161-191 | anonymous fails first. When all three global tests hold, it flashes "already exists". Otherwise an unresolved list fails. In these cases the items and the item counter are unchanged. Else exactly one row with the resolved list's id, the next item id and the given content is appended, the counter advances by one, and the list is rendered |
| Handlers.App.AddToFavourites | main.py:218-250 | as AddToWatchlist, except that an unresolved "Favourites" fails before the three tests are made (the print of its id) |
| Handlers.App.DeleteFirstWithContent | main.py:198-201 | deletes iff some row has the content id, and then removes exactly what `RemoveFirstWithContent` removes; otherwise nothing changes |
| Handlers.App.RemoveFromWatchlist | main.py:194-203 | the delete, then a redirect to the watchlist; with no such row a server error and no change; the session is not consulted |
| Handlers.App.RemoveFromFavourites | main.py:253-261 | as RemoveFromWatchlist, redirecting to favourites |
| Handlers.App.ChangePassword | main.py:269-292 | anonymous fails; a failed check gives "does not match"; differing new passwords give "Passwords do not match"; otherwise "changed successfully" with a redirect to the profile; no stored hash is changed |
| Details.Names | main.py:373-374 | the names of the records, one per record and in order |
| Details.Cast | main.py:373 | the first min(10, n) cast names, in order |
| Details.Genres | main.py:374 | every genre name, in order |
| Details.Creator | main.py:416-419 | the first creator's name, and `None` exactly when the creator list is empty |
| Details.FindDirector | main.py:369-371 | none exactly when no crew member is a "Director"; otherwise the name of the last one |
| Details.MovieCreditsOf | main.py:369-383 | a movie's credits fail exactly when there is no director; otherwise the last director, the cast prefix and the genres |
| Details.ShowCreditsOf | main.py:412-419 | the extracted credit fields of a show never fail: the creator or `None`, at most ten cast names, the genres (the rest of `find_tv_show` does fail; see "## Left out") |
| Scenarios.RegisterTwice | main.py:71-118 | registering an email twice: the second attempt is refused and there is one account, owning lists 1 and 2 |
| Scenarios.LoginAfterRegister | main.py:122-148 | after register and logout, a wrong password and an unknown email are refused and the right password logs user 1 in |
| Scenarios.OneRegisteredUser | main.py:71-118 | the exact state after one registration on an empty database |
| Scenarios.OneWatchlistItem | main.py:161-191 | adding to the watchlist of a lone user stores and renders exactly that one item |
| Scenarios.AddViewRemove | main.py:151-203 | add, view, remove, view: the item is listed once and then the list is empty |
| Findings.ResolveListOwnerIrrelevant | main.py:153-154 | any two users who each own a list resolve a name to the same list |
| Findings.SecondUserGetsFirstUsersList | main.py:165-166 | after two registrations, user 2's "Watchlist" resolves to user 1's |
| Findings.OwnedList | main.py:165-166 | corrected resolution: the earliest list with that name owned by that user |
| Findings.OwnedListAfterRegister | main.py:104-116 | under the corrected resolution, a newly registered user gets the two lists created for them |
| Findings.AddRejectedWithoutDuplicate | main.py:172-173 | the three global tests reject content that is in no list |
| Findings.LoneUserLists | main.py:165-166 | a lone user's "Watchlist" and "Favourites" resolve to lists 1 and 2 (the favourites lookup at main.py lines 222-223 is the same query) |
| Findings.AddShowToFavourites | main.py:218-250 | with movie 42 in list 1, adding TV show 7 to favourites appends it to list 2 |
| Findings.FalseRejectionAfterTwoAdds | main.py:172-175 | after those two adds, adding TV show 42 to the watchlist is refused with "already exists", though no row holds TV show 42 |
| Findings.TwoRegisteredUsers | main.py:71-118 | the exact lists after two registrations |
| Findings.User2AddsAnswer | main.py:161-191 | while no row is in list 2, user 2 adding movie 42 to the watchlist appends a row to list 1 (user 1's watchlist) and renders that list |
| Findings.User2AddsAnswerAgain | main.py:172-187 | with list 1 already holding movie 42, user 2's second add of it is not refused, and the rendered list 1 holds both copies |
| Findings.DuplicateAcceptedTwice | main.py:172-187 | after user 2 adds the same movie twice, the second add renders list 1 (user 1's watchlist) holding both copies of movie 42 |
| Findings.AddOnce | main.py:172-187 | corrected add: the content is listed afterwards; it is appended iff the target list did not hold it |
| Findings.AddOnceIdempotent | main.py:172-187 | adding the same content to the same list a second time changes nothing |
| Findings.AddOncePreservesNoDuplicates | main.py:172-187 | the corrected add never puts the same content into a list twice |
| Findings.RemoveFromFavouritesHitsWatchlist | main.py:256-259 | removing a favourite deletes the same content's watchlist row instead |
| Findings.RemoveFromList | main.py:256-259 | corrected delete: absent iff the list holds no such content; otherwise removes one such row of that list |
| Findings.RemoveFromListOtherListsUnchanged | main.py:256-259 | the corrected delete leaves every other list exactly as it was |
| Findings.RemoveFromListShrinksList | main.py:256-259 | the corrected delete takes exactly one row out of its list |
| Findings.PasswordChangeHasNoEffect | main.py:281-290 | after "Password changed successfully" the new password is refused and the old one still logs in |
| Findings.WithPassword | main.py:284-290 | corrected update: the logged-in user's row gets the new hash and every other row is unchanged |
| Findings.WithPasswordWellFormed | main.py:284-290 | the update keeps `users` well formed and the user findable |
| Findings.WithPasswordLogsIn | main.py:284-290 | after the update, looking the user up by email finds the row with the new hash |
| Findings.ChangePasswordIntended | main.py:269-290 | corrected handler: same checks and messages; on success it stores `hash(new)` for the current user, so that password logs in |
| Findings.StorePassword | main.py:284-290 | the store step: the new users table, and the login lookup by email finds the new hash |

## Left out

- Flask plumbing is abstracted: routing, templates, `redirect`/`url_for` and `flash`. A handler's response is a value naming the page and the flash message. The GET branches that only render a form (`register`, `login`, `change_password`) and `edit_profile` are presentation and are not modelled.
- Form parsing and validation (forms.py, WTForms' `DataRequired`) are not modelled. Handler inputs are the already-parsed field values.
- Query parameters are taken as present and already converted. The model leaves out `request.args.get` yielding `None` for a missing parameter. It also leaves out the database's coercion of the string `id` to the integer `content_id` column.
- All requests to the external movie database, and decoding their JSON, are left out (`search`, `search_movie`, `movie`, `tv_show`, the fetching part of `find_movie` and `find_tv_show`). This is network I/O. Only the extraction from decoded records is modelled.
- `user_score = int(vote_average * 10)` is not modelled. It is floating-point truncation.
- `", ".join(...)` of cast and genres, and the other fields copied verbatim into `Movie`/`TVShow`, are not modelled. movie.py and tv_show.py only copy attributes. `Movie` ignores the `content_type` it is given (movie.py:5); this is not captured.
- `find_tv_show` never renders a page, and the model does not capture this. The call `TVShow(..., content_type='tv', ...)` at main.py:421-435 passes a keyword that `TVShow.__init__` (tv_show.py:2-3) does not accept. So every request that gets past the fetches raises TypeError.
- `find_tv_show` also fails with IndexError when `episode_run_time` is an empty list (`data["episode_run_time"][0]`, main.py:430). This is not captured either. Only the cast, genre and creator extraction (main.py:412-419) is modelled, and that part cannot fail.
- The password hash is an abstract deterministic function `hash`. werkzeug's salted pbkdf2 is a foreign library.
  - Handlers.App.Register: states that the stored password is `hash(password)`. It cannot state "never the plaintext", because nothing is assumed about `hash` (it may be the identity).
- Configuration and setup (`load_dotenv`, app config, `Bootstrap`, `db.create_all`) are environment wiring. `load_user` is represented by the lookup `UserWithId` of the session's id.
- Row ids are counters starting at 1 that are never reused. This is the model's assumption about the database's autoincrement. `.first()` returns the earliest row in insertion order, as stated above.
- Concurrent requests are not modelled. Neither is the atomicity of check-then-insert or commit failures. Every handler runs alone and every commit succeeds.
- The `print` calls that only log (`main.py:157`) are not modelled. The `print(user_favourites.id)` at `main.py:224` is modelled, because it fails on an unresolved list.

## Findings

| source | as written | input that shows it | evidently intended | confidence | as-written member | corrected member |
|---|---|---|---|---|---|---|
| main.py:153-154, 165-166, 209-210, 222-223 | `A and B` returns the earliest list with the name, whoever owns it; owning any list only makes it defined | users 1 and 2 registered; user 2's "Watchlist" resolves to list 1, owned by user 1 | the user's own list of that name | high (not executed) | Findings.SecondUserGetsFirstUsersList | Findings.OwnedList |
| main.py:172-173, 230-231 | the "already exists" test is three unrelated global queries, the first comparing `list_id` with the user's id | user 1 puts movie 42 in the watchlist (list 1) and TV show 7 in favourites (list 2); adding TV show 42 to the watchlist is then refused. Also, user 2 adding movie 42 twice stores it twice | reject exactly when the target list already holds that content id and type | high (not executed) | Findings.FalseRejectionAfterTwoAdds | Findings.AddOnce |
| main.py:198, 256 | the delete takes the earliest row with the content id from any list | movie 42 in list 1 (watchlist) and list 2 (favourites); "remove from favourites" deletes the list 1 row | delete the row of the list named by the route | high (not executed) | Findings.RemoveFromFavouritesHitsWatchlist | Findings.RemoveFromList |
| main.py:283-290 | the update follows the `return`, so it never runs | user 1 changes "pw1" to "pw2" and sees "Password changed successfully"; "pw2" is then refused and "pw1" still logs in | store `hash(new_password)` for the current user before redirecting | high (not executed) | Findings.PasswordChangeHasNoEffect | Findings.ChangePasswordIntended |
