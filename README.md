# sdapi table-mutation core, in Dafny

This project models the per-request logic of the e-book shop API: its two
Express routers, `userweb.js` (the web client's routes) and `server.js` (the
mobile app's routes). Every route in the core sends a few SQL statements
(one to three) to the database module and picks a reply from the results. The
model covers the order of those statements, the branches taken and the
replies sent. It also proves which table invariants each route keeps and
which it breaks.

- `rows.dfy` (module `Rows`) holds the table shape. A table is a sequence
  of rows, each with its AUTO_INCREMENT `id`, stored by increasing id.
  The module defines what SELECT, UPDATE and DELETE do to such a sequence
  (`Select`, `Update`, `Delete`), counts matched rows (`Count`) and finds
  the first match (`First`). Its lemmas say how counts and key uniqueness
  behave under those operations. `Upsert` is the "update it if present,
  else insert" shape that two routes share.
- `database.dfy` (module `Database`) holds the `Table<T>` class, one object
  per SQL table. Its fields are `rows` and `next` (the next AUTO_INCREMENT
  value). Its methods are the four statement kinds the routes send:
  `Select`, `Insert` (returns `insertId`), and `Update` and `Delete` (both
  return `affectedRows`).
- `schema.dfy` (module `Schema`) holds the rows of `cart`, `wishlist`,
  `address`, `test_given`, `readebook`, `users`, `test_timing` and `blogs`.
  It also holds the WHERE conditions and SET clauses the routes use, the
  invariants the design wants kept, and the `Reply` a route sends.
- `userweb.dfy` (module `UserWeb`) holds these userweb.js routes:
  - `/books`, `/add-wishlist`, `/remove-wishlist`;
  - `/readUpdate`, `/getBlogView`;
  - `/addToCart`, `/deleteFromCart`, `/updateQuantity`;
  - `/addAddress`, `/setDefault`, `/testupdate`.
- `server.dfy` (module `Server`) holds these server.js routes:
  - `/insertUser`, `/editProfile`, `/loginUser`, `/checkPhoneandEmail`;
  - `/addCart`, `/deleteCart`, `/deleteFav`;
  - `/addAddress`, `/startTest`, `/giveTest`.

A route that changes tables is a method. It takes the `Table` objects it
touches and `modifies` only those, so no other table changes. A route that
only decides among lookups is a function over the rows: `/loginUser`,
`/checkPhoneandEmail`, `/getBlogView` and the order choice of `/books`.

Modelling choices:
- Each handler is taken to receive from a query the rows it evidently
  expects (see "## Left out").
- An UPDATE's `affectedRows` is taken as the number of rows its WHERE
  matched.
- A request parameter that the route validates is an `Option` (`None`
  means absent or falsy), or a string where `""` means absent or empty.
- Of the modelled userweb.js routes, only `/remove-wishlist` and `/add-wishlist`
  validate their parameters (userweb.js:254-258, 286-290). The others
  validate nothing, so their parameters are taken as present.

## Model

| member | source | states |
|---|---|---|
| UserWeb.BooksQuery | userweb.js:81-88 | the listing is ordered by purchase count exactly for type "best-seller"; it is restricted to editor picks exactly for type "editot"; the two never combine, and every other type lists by id |
| UserWeb.RemoveWishlist | userweb.js:249-278 | a missing user or e-book id gives a 400 and deletes nothing; otherwise every row of the (user, e-book) pair is deleted, none remains, and the reply is "success" exactly when one existed |
| UserWeb.AddWishlist | userweb.js:281-310 | a missing id gives a 400 and changes nothing; otherwise exactly one pair row is appended under the next id, with no duplicate check, the id counter advances by one, and the reply is "success" |
| UserWeb.ReadUpdate | userweb.js:404-430 | the table becomes the upsert of the (user, e-book) row: an existing row's page is rewritten, otherwise one row is inserted and the id counter advances by one; the reply is always "success" |
| UserWeb.ReadUpdateKeepsOneRow | userweb.js:409-424 | after the upsert every row of the pair holds the new page; an existing pair gains no row, a new pair gets exactly one, and a pair unique before stays unique |
| UserWeb.Prev | userweb.js:503-506 | the result is a blog below the id with the largest such id, and it is absent exactly when no blog lies below |
| UserWeb.Next | userweb.js:508-511 | the result is a blog above the id with the smallest such id, and it is absent exactly when no blog lies above |
| UserWeb.BlogView | userweb.js:497-523 | "prev" and "next" give the nearest blog below or above when one exists; any other path, or an empty result, falls back to the rows with the blog's own id |
| UserWeb.BlogViewFallbackAtMostOne | userweb.js:502-523 | under the primary key the route answers with at most one blog whatever the path; the fallback, for any other path or when "prev" or "next" finds nothing, carries the requested id |
| UserWeb.AddToCart | userweb.js:600-623 | an existing (user, e-book) line leaves the cart unchanged with "Item already in cart go to cart"; otherwise one line with the default quantity is appended, the id counter advances by one, and the reply is "success"; afterwards the pair has a line, and (user, e-book) uniqueness and positive quantities are preserved |
| UserWeb.AddToCartTwice | userweb.js:600-623 | a second request for the same pair is answered "Item already in cart go to cart" and changes nothing, so a pair without a line ends with exactly one line of the default quantity; uniqueness is preserved |
| UserWeb.DeleteFromCart | userweb.js:626-636 | the line with the id is deleted: the cart shrinks by one and the reply is "success" when the line existed, otherwise nothing changes and the reply is the failure message; uniqueness and positive quantities are preserved |
| UserWeb.NewQty | userweb.js:644-650 | "min" lowers the quantity by one with a floor of 1, "plus" raises it by one, any other state keeps it; a quantity of at least 1 stays at least 1 |
| UserWeb.SetQtyKeeps | userweb.js:652-655 | rewriting one line's quantity keeps the (user, e-book) key unique, and keeps quantities positive when the new one is |
| UserWeb.UpdateQuantity | userweb.js:639-662 | with no line of that id nothing changes and no reply is sent; otherwise only the line with that id gets the new quantity and the reply carries it; uniqueness and positive quantities are preserved |
| UserWeb.ClearThenAdd | userweb.js:695-704 | clearing the user's defaults and appending a default of that user leaves exactly one default for the user, leaves other users' rows unchanged, and gives no user a second default |
| UserWeb.AddAddress | userweb.js:686-711 | the table becomes the user's rows with the flag cleared plus the new default row under the next id; the user then has exactly one default, other users' rows are unchanged, no user gets a second default, and the reply is "success" |
| UserWeb.SetByIdIsOwned | userweb.js:740-742 | when the address with the id belongs to the user, setting the flag by id alone matches exactly the rows the ownership-checked condition would |
| UserWeb.ClearThenSetDefault | userweb.js:732-742 | when the address with the id belongs to the user, clearing then setting leaves the user exactly one default, leaves other users' rows unchanged and gives no user a second default |
| UserWeb.ClearThenSetForeign | userweb.js:732-742 | when no row with the id belongs to the user, clearing then setting leaves the user no default |
| UserWeb.ClearThenSetById | userweb.js:732-756 | the second statement matches as many rows as the id did; an address of the user's leaves the user one default, other users' rows unchanged and no user with a second default; a foreign address leaves the user none |
| UserWeb.SetDefault | userweb.js:728-757 | with no address of the user nothing changes and no reply is sent; otherwise the flags are cleared and the row with the id is set, with "success" exactly when that id exists; when the address is the user's, the user ends with one default, other users' rows are unchanged and no user gets a second default; when it is not, the user ends with none |
| UserWeb.SetDefaultForeignAddress | userweb.js:740-742 | a concrete table in which every user has one default: user 1 naming user 2's address gets both statements matched, yet is left with no default while user 2 has two |
| UserWeb.ClearThenSetOwnedKeepsOneDefault | userweb.js:732-742 | with the ownership check added to the second statement, every user keeps at most one default |
| UserWeb.ClearThenSetOwnedDefaults | userweb.js:732-742 | with the ownership check, the user ends with exactly one default when they own the address and none otherwise |
| UserWeb.SetDefaultOwned | userweb.js:728-757 | the corrected route: only the user's own address is set; the user ends with one default exactly when they own the address, other users' rows are unchanged, and no user gets a second default |
| UserWeb.OptionValue | userweb.js:837 | an empty option is stored as 0, any other option as sent; the stored value is never empty |
| UserWeb.TestUpdate | userweb.js:832-854 | the answers table becomes the upsert of the (question, user) row: an existing row's answer and type are rewritten, otherwise one row carrying the test id is inserted and the id counter advances by one |
| UserWeb.TestUpdateKeepsOneAnswer | userweb.js:839-854 | after the upsert every answer of the user to the question holds the last submission; an answered question gains no row, and at most one answer per (question, user) is kept |
| UserWeb.TestUpdateTwice | userweb.js:832-854 | after two submissions to one question every row of the pair holds the second answer, a re-submission adds no row, a new question ends with one row, and uniqueness is preserved |
| UserWeb.TestUpdateKeepsTestIds | userweb.js:844-848 | a rewrite keeps every existing row's id, test id and (question, user) key |
| Server.FirstAbsent | server.js:33-38 | the position of the first required field the body lacks: every earlier field is present, and the result is absent exactly when all fields are present |
| Server.FirstMissing | server.js:33-38 | the loop over the required fields finds exactly that first missing position |
| Server.ReplaceFirst | server.js:36 | only the first occurrence of the character is replaced; every other character is kept |
| Server.ValueOf | server.js:72-77 | the value listed against a column: absent exactly when the column is not named, and the value at the column's position when columns are distinct |
| Server.UserColumns | server.js:56-70 | the column list starts with the four required columns, names `email` exactly when one was given and `profile` exactly when a picture was uploaded, and has no repeated column |
| Server.UserValues | server.js:56-70 | the value list stays as long as the column list |
| Server.UserInsertRoundTrip | server.js:56-77 | the INSERT built from the lists stores exactly the intended user: every value lands in its column, and an unnamed column is NULL |
| Server.BuildUserInsert | server.js:56-70 | the pushes build those column and value lists, and a placeholder list of equal length that is all `?` |
| Server.RegisterKeepsUniqueContacts | server.js:40-44 | a user inserted after the duplicate check found no match keeps phones and e-mails unique |
| Server.InsertUser | server.js:29-90 | the first missing required field gives its 400 message; a registered phone or e-mail gives the duplicate 400; otherwise exactly the intended user is appended under the next id and registration succeeds; contact uniqueness is preserved |
| Server.ApplyAll | server.js:131-132 | a profile SET list never touches the phone, password, e-mail or registration picture |
| Server.ProfileUpdates | server.js:108-127 | the SET list holds one entry per non-empty field, in the order first name, last name, picture; it is empty exactly when all three are empty |
| Server.ApplyAllAppend | server.js:131 | applying two SET lists in turn equals applying their concatenation |
| Server.ApplyProfileUpdates | server.js:108-132 | the edit rewrites exactly the given fields, the picture to its upload path, and keeps the rest of the user |
| Server.BuildProfileUpdates | server.js:108-127 | the pushes build exactly that SET list |
| Server.EditProfile | server.js:92-152 | a missing phone and an unknown phone are rejected with their 400s; an empty SET list writes nothing and says "No changes detected."; otherwise the user's row is edited and the reply carries the row as stored; contact uniqueness is preserved |
| Server.EditKeepsUniqueContacts | server.js:131-132 | a profile edit keeps phones and e-mails unique |
| Server.LoginUser | server.js:154-197 | 400 exactly when phone or password is missing; 401 "Phone not registered." exactly when no user has the phone; 401 "Incorrect password." exactly when the first such user's hash does not match; success exactly when it matches, with that user's row |
| Server.LoginFindsTheUser | server.js:166-177 | with unique phones, login succeeds exactly when the password matches the phone owner's hash, and it returns that owner |
| Server.CheckPhoneAndEmail | server.js:597-637 | 400 exactly when either parameter is missing; the e-mail is checked before the phone; the status is true, "Success", exactly when neither is registered |
| Server.CheckedContactsRegister | server.js:601-629 | an e-mail and phone reported free pass registration's duplicate check |
| Server.AddCart | server.js:252-279 | missing ids give a 400 and change nothing; otherwise one line with quantity 1 is appended with no duplicate check, so the pair's line count grows by one; positive quantities are preserved |
| Server.AddCartTwice | server.js:256-266 | two requests for the same pair add two lines, so the cart's (user, e-book) key is no longer unique |
| Server.DeleteCart | server.js:281-315 | a missing id gives a 400; otherwise the line with the id is deleted; the success reply is sent exactly when such a line existed, and the cart then shrinks by one; otherwise the reply is 404 and nothing changes |
| Server.DeleteFav | server.js:387-422 | the same for the wishlist entry with the id |
| Server.AddAddress | server.js:526-563 | a missing parameter gives a 400 and changes nothing; otherwise one address with the client's `isDefault` is appended under the next id and no other row is touched |
| Server.AddDefaultBesideDefault | server.js:526-563 | a default added for a user who has one leaves that user with two defaults |
| Server.StartTest | server.js:639-664 | a missing parameter gives a 400; otherwise exactly one timing row is appended |
| Server.StartTestTwice | server.js:643-651 | two starts of the same test leave two more timing rows for it |
| Server.GiveTest | server.js:700-728 | a missing field gives a 400; otherwise exactly one answer row is appended, with no duplicate check |
| Server.GiveTestTwice | server.js:704-715 | two answers to the same question by the same user leave two rows for it, so the (question, user) key is no longer unique |

## Left out

- app.js, routing, CORS and body parsing are not part of this model. The
  database driver is not part of it either; its statements are the
  `Database.Table` methods.
- Return shape of a query: the database module is not part of this model,
  and the handlers do not agree on what a call returns. Every `db.execute`
  result that is used is destructured as `[rows]` (server.js, and
  userweb.js:260, 292). Some `db.query` results are destructured too
  (userweb.js:36). Others are used as the row list itself (userweb.js:409,
  604, 643, 839). No single return shape makes every core handler behave
  as modelled. Under `[rows, fields]`, `check.length`, `checkItem.length`
  and `checkF.length` would always be 2, so `/readUpdate` and `/testupdate`
  would never insert and `/addToCart` would always answer "already in
  cart". Under a bare row list, `const [existingUsers]` and `const [users]` in
  server.js would name the first row, or `undefined` when nothing matches.
  When a row matches, its `.length` is undefined and every comparison with
  it is false. The duplicate check then lets a duplicate be registered
  (server.js:42), and login answers "Phone not registered." (server.js:168).
  The unknown-phone check of `/editProfile` (`<= 0`, server.js:104) still
  passes, as in the model, but `userDetails[0]` is then undefined and the
  reply carries no `details` (server.js:138-143). When nothing matches,
  reading `.length` throws and the `catch` answers 500 (server.js:40-42 and
  84-89, 102-104 and 146-151, 166-168 and 191-196), so registering a new
  phone, editing an unknown phone and logging in with an unknown phone
  would all answer 500. The model reads each
  handler as receiving the rows it evidently expects.
- Row order of a query without ORDER BY: SQL leaves it unspecified. The
  model takes it to be storage order (increasing id). This decides which
  row `users[0]` is in `/loginUser` and `/editProfile` when a phone is
  held by several users.
- `affectedRows` of an UPDATE is the number of rows matched, not the number
  changed. A MySQL connection without the FOUND_ROWS flag would report 0
  for a row whose value is already the new one.
- Database errors and the `catch` branches that answer 500 are not
  modelled. The `error` callbacks of `/setDefault` are left out too.
  `/addAddress` in server.js does not check `landmark` (server.js:539), so a
  body without it binds `undefined` (server.js:549). A driver that rejects
  `undefined` binds would throw and answer 500. `Server.AddAddress` takes a
  missing landmark as `""` and answers "Address added successfully.".
- `/setDefault` uses callbacks and the other routes use `await`. Both are
  modelled as statements run one after the other.
- Requests running at the same time are not modelled. Requests run one at
  a time, each to completion.
- A missing parameter of an unvalidated userweb.js route (a SQL NULL) is
  not modelled. Those parameters are taken as present.
- The `cart.qty` column default is not visible, because the schema is not
  part of this model. `Schema.CartQtyDefault` takes it as 1.
- bcrypt is modelled by its results only. The password hash is the
  `hashed` parameter of `Server.InsertUser`. `bcrypt.compare` is the
  `compare` parameter of `Server.LoginUser`.
- Uploaded files are not modelled as files. An upload is its file name
  ("" when absent), and the `mv` file moves are left out.
- `/editProfile` builds its SET list by pasting the values into the SQL
  text. The model keeps the list abstract (`ProfileUpdate`), so it does
  not capture that text or the SQL injection it allows.
- Registration writes the picture path to column `profile`, while a
  profile edit writes column `profile_picture`. `Schema.User` keeps both,
  exactly as the routes write them.
- The type value "editot" in `/books` is modelled as written. The listing
  SELECT itself, with its JOIN, its wishlist flag and the column names
  sorted on, is left out; `UserWeb.BooksQuery` is only the choice of
  order and filter.
- `/getBlogView` also answers with the list of all blogs, and `/testupdate`
  answers with a question listing and the request's `id`. Those
  read-only listings are not modelled: `UserWeb.TestUpdate` returns no
  reply, and `UserWeb.BlogView` holds only the `blogs` part.
- `UserWeb.TestUpdate` takes `option` as a text. A number sent in the body
  is compared with "" as its text, with the same outcome.
- `UserWeb.UpdateQuantity`: a quantity is an unbounded integer. The type of
  the `qty` column is not visible (the schema is not part of this model),
  so the model does not capture the overflow a SQL `INT` column would hit
  at 2^31-1 in the "plus" branch, nor the loss of precision of JavaScript
  doubles above 2^53.

## Findings

| source | as written | input that shows it | evidently intended | confidence | as-written member | corrected member |
|---|---|---|---|---|---|---|
| userweb.js:740-742 | the second UPDATE sets `isDefault = 'yes'` on the row whose id is the given one. It does not check that this row belongs to the user whose flags were just cleared. | Addresses 1 (user 1, default), 2 (user 2, default) and 3 (user 2). User 1 sends address id 3. Both statements match a row and the reply is "success". User 1 has no default, and user 2 has two. | set the flag only on the user's own address (`WHERE id = ? AND user_id = ?`), so that the user ends with one default and no user gets a second | not executed | UserWeb.SetDefault, UserWeb.SetDefaultForeignAddress | UserWeb.SetDefaultOwned |
