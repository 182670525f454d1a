# KitobchiBack marketplace core, modelled in Dafny

KitobchiBack is the backend of a second-hand book marketplace. Users register and log
in. They post book listings, which are for sale or free. They browse the approved
listings with filters and pages, like and unlike books, and manage their profile,
their own listings and their saved books.

This project models that business logic over an in-memory database and proves what
each handler promises:

- **Validation** (`BookSchema`, `UserSchema`, `AuthSchema`). This covers the field
  bounds of a listing, the rule tying price to listing type, the partial shape of an
  update body, the query-string bounds, and the password rules for registration and
  for user creation, which differ.
- **Reading handlers**, as pure functions over a snapshot of the tables:
  - `BooksRouter.ListBooks` is the public listing.
  - `BooksRouter.GetBookDetail` is the detail view.
  - `UsersRouter.MyListings` and `UsersRouter.SavedBooks` are the caller's own
    listings and saved books.
  - `AuthRouter.Login` is login.
  
  Filtering, counting, newest-first ordering and paging are shared: they live in
  `Tables`, `Ordering` and `Paging`.
- **Response validation.** Every answer that carries a book is built through
  `BookResponse`, which is a `BookBase` and so re-checks the stored row: its field
  bounds, the image list and the price rule (`BookSchema.ResponseViolations`). An
  update body has no price rule and may send a null image list, so a stored row can
  fail that check. Then every handler that answers with the row answers 500: the
  listings, the detail view, and update and like after their commit.
- **The two `setattr` loops**, as methods with loop invariants:
  - `BooksRouter.ApplyBookUpdate` applies the dump of a book update. It is proved equal
    to the field-wise patch `Patched`.
  - `UsersRouter.ApplyProfileUpdate` does the same for a profile update and
    `ProfilePatched`.
- **Writing handlers**, as methods of the class `Store.Marketplace`. The class holds
  the users, books and likes tables, the category and language keys, and the id
  sequences. Its invariant `Valid` covers:
  - primary keys;
  - the unique email;
  - the unique `(user, book)` like;
  - the foreign keys;
  - the bounds every stored listing keeps.
  
  Each of these methods states the whole new state, id counters included, on success
  and on every error: registration, profile update, book create, update and delete,
  like and unlike. So do
  the ON DELETE rules of the schema, for users, categories and languages. Each change
  is also stated on plain maps, with a lemma that it keeps the constraints
  (`Store.*KeepsConsistent`).

Stand-ins for things outside the code:
- The password hasher is a function parameter `hash: string -> Option<string>`, where
  `None` means the hasher refused the password.
- The clock is a `now: nat` parameter.
- An access token is the record of its claims.

## Model

| member | source | states |
|---|---|---|
| `BookSchema.LengthViolations` | app/schemas/book.py:8-9 | no violation exactly when the length is within `[lo, hi]`; at most one violation per field |
| `BookSchema.ImagesViolations` | app/schemas/book.py:11 | the image list passes `max_length` exactly when it has at most 3 entries |
| `BookSchema.PriceViolations` | app/schemas/book.py:15 | a present price passes exactly when it is not negative; an absent price always passes |
| `BookSchema.ValidateImages` | app/schemas/book.py:18-23 | the custom validator accepts, unchanged, exactly the lists of at most 3 images; any other list is reported as the one violation "Maximum 3 images allowed" on `images` |
| `BookSchema.ImagesValidatorNeverRejects` | app/schemas/book.py:11-23 | a list that passed `max_length` always passes the custom validator, so its message is never produced |
| `BookSchema.CreateFieldViolations` | app/schemas/book.py:7-16 | a create body's fields pass exactly when title and author have 1 to 255 characters, there are at most 3 images and the price is not negative |
| `BookSchema.CouplingViolations` | app/schemas/book.py:25-32 | passes exactly when (type is sell) iff (a price is present); names the sell-without-price message and the free-with-price message in their cases |
| `BookSchema.CreateViolations` | app/schemas/book.py:7-36 | a create body is accepted exactly when its field bounds and the price rule hold; field errors, when present, are the whole report |
| `BookSchema.ResponseViolations` | app/schemas/book.py:7-32 | a stored row can be answered with exactly when its image column holds a list (not JSON null), its field bounds hold and the price rule holds |
| `BookSchema.FieldErrorsHideCouplingErrors` | app/schemas/book.py:25-32 | a body with a field error is never reported for the price rule |
| `BookSchema.UpdateViolations` | app/schemas/book.py:39-49 | an update body is accepted exactly when each field sent with a value meets its bound; there is no price rule |
| `BookSchema.DumpSlots` | app/routers/books.py:207 | the dump of an update has one slot per field, and leaving every field out gives an empty dump |
| `BookSchema.FilterViolations` | app/schemas/book.py:83-94 | a query string is accepted exactly when both price bounds are not negative, page ≥ 1 and 1 ≤ page_size ≤ 100 |
| `BookSchema.DefaultFiltersValid` | app/schemas/book.py:93-94 | the default query string (no filter) is valid, and its paging is the first page of ten, which is also valid paging for the other list endpoints |
| `UserSchema.UserCreateViolations` | app/schemas/user.py:16-17 | the user-create password passes exactly when it has at least 6 characters |
| `UserSchema.DumpProfileSlots` | app/routers/users.py:32 | the dump of a profile update has one slot per profile field, and an empty body gives an empty dump |
| `UserSchema.ProfileOf` | app/schemas/user.py:29-39 | the public view keeps id, email, created_at and the six profile fields of the row |
| `UserSchema.ProfileHidesOnlyPassword` | app/schemas/user.py:29-39 | two rows with the same public view differ at most in their password |
| `UserSchema.ProfileIndependentOfPassword` | app/schemas/user.py:29-39 | changing the stored password never changes the public view |
| `AuthSchema.RegisterViolations` | app/schemas/auth.py:5-10 | a registration password passes exactly when its raw length is between 8 and 64 |
| `AuthSchema.BearerToken` | app/schemas/auth.py:18-20 | a token built with the default type carries the given claims and type "bearer" |
| `AuthSchema.PasswordRulesDiffer` | app/schemas/auth.py:7 | 6, 7 and 65 characters pass the user-create rule but not registration; every registration password passes the user-create rule |
| `Models.Integrity` | app/models/book.py:22-45 | defines every constraint the schema declares: primary keys, the unique email, the unique (user, book) like, and the foreign keys of books and likes |
| `Models.LikedPairs` | app/models/like.py:11-16 | the like set as `(user, book)` pairs: every row's pair is in it and every pair in it comes from a row |
| `Text.Strip` | app/routers/auth.py:21 | the result drops exactly the leading and trailing whitespace, and neither starts nor ends with whitespace |
| `Text.StripIdempotent` | app/routers/auth.py:21 | stripping twice is stripping once |
| `Text.StripFixesUnpadded` | app/routers/auth.py:21 | stripping leaves a string unchanged exactly when it has no surrounding whitespace |
| `Text.ContainsIff` | app/routers/books.py:48-61 | substring search finds the term exactly when it occurs at some position |
| `Text.IgnoreCaseIsCaseBlind` | app/routers/books.py:48-61 | the case-insensitive match does not change when haystack or term is lower-cased |
| `Text.OccurrenceMatches` | app/routers/books.py:48-61 | a term that occurs in the text is matched case-insensitively |
| `Tables.CountWhere` | app/routers/books.py:63-66 | the number of rows a WHERE clause keeps is the number of matching keys |
| `Ordering.SortDescending` | app/routers/books.py:70 | the ordered rows are non-increasing in the key and are a permutation of the input |
| `Ordering.SortKeepsElements` | app/routers/books.py:70 | ordering keeps the number of rows and exactly the same rows |
| `Paging.PagingViolations` | app/routers/users.py:45-46 | paging is accepted exactly when page ≥ 1 and 1 ≤ page_size ≤ 100 |
| `Paging.Slice` | app/routers/books.py:68-71 | a page holds at most page_size rows, the rows from offset `(page-1)*page_size` on, in order, and is empty past the end |
| `Paging.SliceKeepsOrder` | app/routers/books.py:70-71 | a page of newest-first rows is newest first |
| `Paging.TotalPages` | app/routers/books.py:78 | defines the page count as the integer division `(total + page_size - 1) // page_size` |
| `Paging.TotalPagesIsCeiling` | app/routers/books.py:78 | total_pages is the ceiling of total/page_size, and 0 exactly when total is 0 |
| `Paging.PageNonEmptyIff` | app/routers/books.py:68-78 | a page has rows exactly when its number is at most total_pages |
| `Paging.RowOnItsPage` | app/routers/books.py:69-71 | row `i` is on page `i / page_size + 1` |
| `Paging.EveryRowOnSomePage` | app/routers/books.py:69-71 | every row is on some page |
| `Paging.FifteenRowsExample` | app/routers/books.py:69-78 | fifteen rows in pages of ten: page 2 holds the last five, and there are two pages |
| `BooksRouter.Listed` | app/routers/books.py:30-61 | defines the list filter: approved rows only, and every filter the query gives (the ids, type and text filters when truthy, the price bounds when present), with the search term matching title or author, all combined with AND |
| `BooksRouter.NewestFirstPage` | app/routers/books.py:63-75 | for any WHERE clause, the count is that of the matching rows, and the page is newest first and holds only matching rows |
| `BooksRouter.Respond` | app/routers/books.py:80-86 | a list answer is built exactly when every book on its page passes `BookResponse`, and is then that page unchanged; otherwise it is a 500 |
| `BooksRouter.ListedPageRows` | app/routers/books.py:30-75 | a page of the public listing holds only listed books of the table |
| `BooksRouter.ListedKeys` | app/routers/books.py:30-61 | the listed keys are exactly the approved rows that pass every filter |
| `BooksRouter.ListBooks` | app/routers/books.py:23-86 | an invalid query is rejected with its violations; otherwise the answer is a 500 exactly when some book on the requested page fails `BookResponse`, and else the items are exactly that page of the listed books in newest-first order, with echoed page and page size, total the number of listed books, total_pages its ceiling, at most page_size items, none past the end, newest first, and only approved books that pass every filter |
| `BooksRouter.KeptRowOnSomePage` | app/routers/books.py:69-71 | every row a WHERE clause keeps is on some page of its newest-first order |
| `BooksRouter.ListingIgnoresPage` | app/routers/books.py:30-70 | the filtered, ordered rows do not depend on the page asked for |
| `BooksRouter.ListingCoversEveryMatch` | app/routers/books.py:23-86 | when every listed book passes `BookResponse`, every approved book that passes the filters appears on some page of the listing |
| `BooksRouter.UnpresentableRowFailsItsPage` | app/routers/books.py:68-86 | a listed book that fails `BookResponse` makes some page of the listing, its own, answer 500 |
| `BooksRouter.FiltersCombineWithAnd` | app/routers/books.py:33-61 | a book is listed exactly when it is listed under each filter alone |
| `BooksRouter.FalsyFiltersIgnored` | app/routers/books.py:33-61 | category or language 0 and an empty author, location or search term filter nothing |
| `BooksRouter.NoFilterListsApproved` | app/routers/books.py:30 | with no filter, a book is listed exactly when it is approved |
| `BooksRouter.PriceBoundHidesUnpriced` | app/routers/books.py:42-46 | any price bound, 0 included, hides books with no price |
| `BooksRouter.PriceBoundsInclusive` | app/routers/books.py:42-46 | both price bounds are inclusive, and a bound just past the price excludes the book |
| `BooksRouter.SearchFindsTitleOrAuthor` | app/routers/books.py:54-61 | a search term found in the title or in the author matches |
| `BooksRouter.UnapprovedNeverListed` | app/routers/books.py:30 | a pending or rejected book is never listed, whatever the filters |
| `BooksRouter.GetBookDetail` | app/routers/books.py:130-180 | a missing id gives "Book not found"; otherwise the answer succeeds exactly when the seller row exists and the book passes `BookResponse`, is a 500 otherwise, and on success holds the book whatever its status, its seller's public view, its category and language only when they exist, and is_liked false |
| `BooksRouter.Patched` | app/routers/books.py:207-209 | defines the patched row: every slot the body sets is copied onto the row, every other column stays |
| `BooksRouter.PrefixStep` | app/routers/books.py:207-209 | applying slot `k` of the dump after the first `k` fields gives the patch by the first `k+1` fields |
| `BooksRouter.SlotsClearIff` | app/models/book.py:23-41 | the dump sets a NOT NULL column to SQL NULL exactly when the body sends null for title, author, listing_type or status (a null image list is stored as JSON null) |
| `BooksRouter.ApplyBookUpdate` | app/routers/books.py:207-209 | the `setattr` loop yields the field-wise patch, and reports whether a NOT NULL column was set to null |
| `BooksRouter.PatchKeepsIdentity` | app/routers/books.py:207-209 | an update never changes id, seller or timestamps of the row |
| `BooksRouter.PatchEmptyAndIdempotent` | app/schemas/book.py:39-49 | an empty update changes nothing; the same update twice is the same as once |
| `BooksRouter.ValidPatchKeepsBounds` | app/schemas/book.py:39-49 | a valid update keeps title, author, images and price within their bounds |
| `BooksRouter.PatchCanBreakPriceRule` | app/schemas/book.py:25-49 | valid updates can leave a sell listing without a price or give a free listing one, and a row that breaks the price rule fails `BookResponse` |
| `BooksRouter.NullImagesCommitThenFail` | app/models/book.py:28 | a body with `images: null` passes validation and the commit, leaves JSON null in the row, and the row then fails `BookResponse` |
| `BooksRouter.OwnerCanApprove` | app/schemas/book.py:49 | status is updatable: a valid update can set a listing to approved |
| `UsersRouter.GetMyProfile` | app/routers/users.py:17-22 | the profile endpoint shows every column of the caller's own row except the password hash |
| `UsersRouter.ProfilePatched` | app/routers/users.py:32-34 | defines the patched profile: every slot the body sets is copied onto the user row, every other column stays |
| `UsersRouter.ProfilePrefixStep` | app/routers/users.py:32-34 | applying slot `k` of the dump after the first `k` fields gives the patch by the first `k+1` fields |
| `UsersRouter.ApplyProfileUpdate` | app/routers/users.py:32-34 | the `setattr` loop yields the field-wise patch: sent fields take the value sent, nulls included, and other columns are kept |
| `UsersRouter.ProfileUpdateKeepsCredentials` | app/schemas/user.py:20-26 | a profile update never changes id, email, password or created_at |
| `UsersRouter.ProfilePatchLaws` | app/schemas/user.py:20-26 | an empty body changes nothing, the same body twice is the same as once, and null clears a column |
| `UsersRouter.OwnListing` | app/routers/users.py:51-54 | defines which rows `my-listings` shows: the caller's own rows, of the given status when one is given |
| `UsersRouter.OwnListingKeys` | app/routers/users.py:51-54 | the keys are exactly the caller's books with the requested status, or with any status when none is asked for |
| `UsersRouter.MyListings` | app/routers/users.py:42-79 | bad paging is rejected; otherwise the answer is a 500 exactly when some book on the requested page fails `BookResponse`, and else the items are exactly that page of the caller's matching books in newest-first order, total counts them, at most page_size items, none past the end |
| `UsersRouter.MyListingsShowEveryStatus` | app/routers/users.py:51-54 | when the caller's books pass `BookResponse`, without a status filter every own book, pending and rejected included, is on some page |
| `UsersRouter.OwnLike` | app/routers/users.py:91 | defines which likes `saved` shows: the caller's likes, joined to the book row they name |
| `UsersRouter.OwnLikeKeys` | app/routers/users.py:91 | the keys are exactly the caller's likes whose book exists |
| `UsersRouter.SavedOrder` | app/routers/users.py:91-100 | the caller's likes, all of them and only them, most recent like first |
| `UsersRouter.BooksOf` | app/routers/users.py:91 | the join maps each like to its book, position by position |
| `UsersRouter.PresentableBooksOf` | app/routers/users.py:105-116 | the books of some joined likes all pass `BookResponse` exactly when the book of each like does |
| `UsersRouter.SavedPage` | app/routers/users.py:99-101 | a page of saved likes is most recent first and holds only the caller's likes |
| `UsersRouter.SavedBooks` | app/routers/users.py:82-116 | bad paging is rejected; otherwise the answer is a 500 exactly when the book of some like on the requested page fails `BookResponse`, and else total counts the caller's likes and the items are the books of that page of likes, most recent like first |
| `UsersRouter.BookOfShown` | app/routers/users.py:91 | the book of every like on the page is among the items |
| `UsersRouter.SavedBooksShowEveryStatus` | app/routers/users.py:89-101 | when the caller's saved books pass `BookResponse`, every liked book is on some page of the saved list, whatever its status |
| `AuthRouter.FindByEmail` | app/routers/auth.py:65-68 | finds the user with exactly that email when there is one, and nothing otherwise |
| `AuthRouter.Login` | app/routers/auth.py:59-89 | login succeeds exactly when some user has the email and the stored hash matches the password as sent; an unknown email is 401 "Incorrect email or password"; a registered email with a password the hasher refuses is a 500, because verification raises uncaught; every other failure is that 401; a success is a bearer token whose subject is the email |
| `AuthRouter.LoginErrorIsGeneric` | app/routers/auth.py:70-75 | any two failed logins whose passwords the hasher accepts answer the same, so an unknown email and a wrong password look alike |
| `AuthRouter.RefusedPasswordRevealsEmail` | app/routers/auth.py:69-75 | a password the hasher refuses answers 500 for a registered email and 401 for an unknown one, so such a password tells the two apart |
| `AuthRouter.UnknownEmailRefused` | app/routers/auth.py:70-75 | an unregistered email is refused whatever the password |
| `AuthRouter.TokenNamesOneUser` | app/routers/auth.py:81-83 | the subject of an issued token is the email of exactly one user |
| `AuthRouter.PaddedPasswordLockedOut` | app/routers/auth.py:21-24 | with a collision-free hasher, a user registered with a typed password can log in with its stripped form, and with the typed form only when it had no surrounding whitespace |
| `Store.FindLike` | app/routers/likes.py:33-38 | finds the like of a `(user, book)` pair exactly when that pair is liked |
| `Store.LikesWithoutBook` | app/models/like.py:12 | after a book is deleted, exactly the likes of other books remain, unchanged |
| `Store.BooksWithoutSeller` | app/models/user.py:22 | after a user is deleted, exactly the books of other sellers remain, unchanged |
| `Store.LikesAfterUserDeleted` | app/models/user.py:22-23 | after a user is deleted, exactly the likes by other users on remaining books remain |
| `Store.ClearCategory` | app/models/book.py:32 | deleting a category keeps every book, and sets the category to null on the books that had it |
| `Store.ClearLanguage` | app/models/book.py:33 | deleting a language keeps every book, and sets the language to null on the books that had it |
| `Store.LikedPairsInsert` | app/routers/likes.py:45-52 | inserting a like adds exactly its pair to the like set |
| `Store.LikedPairsRemove` | app/routers/likes.py:86-87 | deleting a like removes exactly its pair from the like set |
| `Store.Consistent` | app/models/book.py:22-45 | defines the database invariant: `Integrity`, plus the field bounds every stored listing keeps because it passed validation |
| `Store.AddUserKeepsConsistent` | app/models/user.py:11 | inserting a user with a fresh id and an unused email keeps every constraint |
| `Store.PutBookKeepsConsistent` | app/models/book.py:23-41 | writing a book row whose seller, category and language exist and whose fields are in bounds keeps every constraint |
| `Store.DeleteBookKeepsConsistent` | app/models/book.py:51 | deleting a book together with its likes keeps every constraint |
| `Store.AddLikeKeepsConsistent` | app/models/like.py:11-16 | inserting the like of an existing user and book whose pair is not yet liked keeps every constraint |
| `Store.RemoveLikeKeepsConsistent` | app/routers/likes.py:86-87 | deleting a like keeps every constraint |
| `Store.PutUserKeepsConsistent` | app/models/user.py:11 | rewriting a user row with the same email keeps every constraint |
| `Store.DeleteUserKeepsConsistent` | app/models/user.py:22-23 | deleting a user with its books and the likes that cascade keeps every constraint |
| `Store.DeleteCategoryKeepsConsistent` | app/models/book.py:32 | deleting a category and nulling its references keeps every constraint |
| `Store.DeleteLanguageKeepsConsistent` | app/models/book.py:33 | deleting a language and nulling its references keeps every constraint |
| `Store.NewUser` | app/routers/auth.py:31-36 | the registered row holds the email, the given hash, the two names and null for the other profile columns |
| `Store.NewBook` | app/routers/books.py:116-121 | the created row holds every field of the body, the caller as seller, status pending (the column default of app/models/book.py:41) and the current time |
| `Store.NewBookKeepsRules` | app/routers/books.py:117-127 | a row built from a valid body keeps the stored bounds and the price rule, so it passes `BookResponse` |
| `Store.CreateReferenceError` | app/routers/books.py:96-114 | "Category not found" for a truthy missing category, then "Language not found" for a truthy missing language; an id of 0 that exists nowhere makes the insert fail with a 500 "Internal Server Error", the only error that is not a 404; no error exactly when every id given exists |
| `Store.CommitRefused` | app/routers/books.py:211 | defines when the commit of an update is refused: a required column set to null, or a category or language id that names no row |
| `Store.Stamped` | app/models/book.py:45 | updated_at moves to the current time exactly when some column changed, and nothing else is touched |
| `Store.Marketplace.Valid` | app/models/book.py:22 | defines the object invariant: `Consistent` state, and every stored id below the next id its table hands out |
| `Store.Marketplace.constructor` | app/models/book.py:19-51 | an empty database over the given category and language keys |
| `Store.Marketplace.Register` | app/routers/auth.py:16-57 | validation errors, then 422 when the hasher refuses the stripped password, then 409 for a registered email, each leaving the users and the user counter unchanged; otherwise exactly one new row with the hash of the stripped password, answered by its public view; the book and like counters never move |
| `Store.Marketplace.UpdateMyProfile` | app/routers/users.py:25-39 | the caller's row becomes its field-wise patch and no other table changes |
| `Store.Marketplace.CreateBook` | app/routers/books.py:89-127 | validation errors, then the reference errors, leaving books and the book counter unchanged; otherwise exactly one new pending row for the caller, which passes `BookResponse`; the user and like counters never move |
| `Store.Marketplace.UpdateBook` | app/routers/books.py:183-214 | validation errors, then 404, then 403 for a book the caller does not own, then a refused commit (500), each changing nothing; otherwise the row becomes its stamped patch, and the answer is that row when it passes `BookResponse` and a 500 when it does not; no counter moves |
| `Store.Marketplace.DeleteBook` | app/routers/books.py:217-242 | 404, then 403 for a book the caller does not own, changing nothing; otherwise the book and exactly its likes are removed; no counter moves |
| `Store.Marketplace.LikeBook` | app/routers/likes.py:15-63 | 404 for a missing book, 400 "Book already liked" for a liked pair, changing nothing; otherwise exactly one new like, under the next like id, whose pair joins the like set, answered with that like when the book passes `BookResponse` and with a 500 when it does not; the user and book counters never move |
| `Store.Marketplace.UnlikeBook` | app/routers/likes.py:66-89 | 404 "Like not found" for a pair not liked, changing nothing; otherwise exactly that like is removed and its pair leaves the like set; no counter moves |
| `Store.Marketplace.LikeUnlikeLike` | app/routers/likes.py:15-89 | the unlike succeeds; each like succeeds exactly when the book passes `BookResponse` and is a 500 otherwise; the likes table ends with one new row for the pair, under the second fresh id |
| `Store.Marketplace.LikeTwice` | app/routers/likes.py:33-63 | the first like is stored whatever its answer, and succeeds exactly when the book passes `BookResponse`; the second is refused with "Book already liked" and adds nothing |
| `Store.Marketplace.DeleteUser` | app/models/user.py:22-23 | deleting a user removes their books, their likes and the likes on their books; no counter moves |
| `Store.Marketplace.DeleteCategory` | app/models/book.py:32 | deleting a category keeps its books, with no category; no counter moves |
| `Store.Marketplace.DeleteLanguage` | app/models/book.py:33 | deleting a language keeps its books, with no language; no counter moves |

## Left out

- `AuthRouter.Login`: the hasher is a parameter; the model assumes that `verify_password` raises exactly for the passwords that hashing refuses, and the hashing library's own rules for which passwords those are are not modelled.
- `AuthRouter.LoginErrorIsGeneric`: covers only passwords the hasher accepts; with a refused password a registered email answers 500 and an unknown one 401 (`AuthRouter.RefusedPasswordRevealsEmail`).
- The async session is not modelled: query execution, commit, refresh and rollback. Each handler is one atomic step over the tables. A handler that fails after its commit (update and like, when the row fails `BookResponse`) keeps what it committed.
- The id sequences are modelled as counters that advance only on a successful insert. The gaps a rolled-back insert leaves in a real sequence are not modelled.
- The `Unexpected error` 500 branch of registration is not modelled. It is the catch-all for failures other than the unique email.
- Hashing and token signing are not modelled. The password hasher is a parameter that is deterministic and not salted; `app/utils/security.py` is not part of this model. A hash matches a password when hashing the password gives it. The message for a refused hash is the one the handler sends, whatever the reason was. JWT signing and expiry (`create_access_token`, `ACCESS_TOKEN_EXPIRE_MINUTES`) are not modelled; a token is the record of its claims.
- `get_current_active_user`, the token check that yields the caller, is not part of this model. Handlers take the caller's user id and require that the user exists.
- Email checking and normalisation by `EmailStr` are not modelled. Emails are opaque strings compared exactly.
- Column sizes (`String(255)`, `String(100)`, …) are not modelled. The store would reject over-long strings that validation let through, for example a 300-character phone number in a profile update.
- Integer widths are not modelled. Ids, page and page size are unbounded integers here. In the database the id columns are 32-bit `Integer`, and `OFFSET` is a 64-bit value: an id beyond 32 bits in a path or body, or a page so large that `(page - 1) * page_size` overflows, makes the query fail with a 500, where the model answers 404 or an empty page.
- The wildcards `%` and `_` and the escape character `\` are not modelled; `ILIKE` is modelled as case-insensitive substring search, with every character of the term taken literally. The lower-casing covers ASCII letters and the basic Cyrillic capitals (U+0400 to U+042F); other scripts compare case-sensitively here.
- Prices are modelled as `real`, with no floating-point rounding. Timestamps are abstract clock readings.
- Rows with equal timestamps are ordered by ascending primary key in the model, because the sort is stable over rows taken in key order. The database promises no order among them, and each page is a separate query, so with tied timestamps a row may appear on two pages or on none.
- `BooksRouter.ListingCoversEveryMatch`: holds for the model's order, in which ties are broken by id. With tied timestamps the database does not guarantee it, as above.
- `UsersRouter.MyListingsShowEveryStatus`: holds for the model's order only, as above.
- `UsersRouter.SavedBooksShowEveryStatus`: holds for the model's order only, as above.
- Pydantic's errors for missing fields and wrong types are not modelled. Request bodies and query strings are assumed to be already parsed into their typed shapes.
- The response payloads are simplified. The detail view carries the category and language ids, not their full rows. The like payload and its embedded book are not modelled apart from the new like row.
- The refused commit of a book update (a null title, author, listing type or status, or a category or language id that names no row) is decided on the patched copy of the row, before anything is written to the store, and nothing is then written. The model expresses the same outcome, with no change to the store. A null image list is not refused: the JSON column stores it as JSON null (`BooksRouter.NullImagesCommitThenFail`).
- The `EmailStr` check that `BookDetail` makes of the seller profile is not modelled; of the seller-side checks, only a missing seller row makes the detail view fail (the book row itself still has to pass `BookResponse`).
- The column default of `listing_type` (sell) is not modelled: every insert supplies the listing type, which the create body requires.
- `BookSchema.DumpSlots`: states only the empty case in its contract. Which slot carries which field is what the step lemmas `BooksRouter.Step*` prove, one per field.
- `UserSchema.DumpProfileSlots`: as above, with the lemmas `UsersRouter.Step*`.
- `app/routers/languages.py`, `app/main.py` and `app/config.py` are not part of this model. Neither are the shapes `CategoryResponse` and `LikeResponse`; categories and languages are kept only as their primary keys.
- The `Maximum 3 images allowed` message of the custom image validator is never sent. `max_length=3` on the same field rejects longer lists first, with its own error (`BookSchema.ImagesValidatorNeverRejects`).
