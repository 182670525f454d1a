/** The database behind the handlers, as one object whose tables the handlers change in
    place, each handler one atomic step: it either commits all its changes or fails
    before its commit and leaves every table as it was. Two handlers can also fail after
    their commit, when the row they answer with fails `BookResponse`: the change stays
    and the answer is a 500.

    The first half states, on plain maps, what each change does to the tables and that
    it keeps the database's constraints; the class `Marketplace` then runs the handlers
    over those tables. */
module Store {
  import opened Common
  import opened Models
  import opened Text
  import opened BookSchema
  import opened UserSchema
  import opened AuthSchema
  import opened BooksRouter
  import opened UsersRouter

  const EmailTaken := "Email already registered"
  const PasswordTooLong := "Password is too long (max 64 characters)"
  const BookNotFound := "Book not found"
  const CategoryNotFound := "Category not found"
  const LanguageNotFound := "Language not found"
  const NotYourBookUpdate := "Not authorized to update this book"
  const NotYourBookDelete := "Not authorized to delete this book"
  const AlreadyLiked := "Book already liked"
  const LikeNotFound := "Like not found"

  // ---------------------------------------------------------------------------------
  // Lookups.

  /** Is an email already in the users table? */
  predicate EmailInUse(users: map<int, User>, email: string) {
    exists id :: id in users && users[id].email == email
  }

  /** The like of a `(user, book)` pair; the UNIQUE constraint makes it at most one. */
  function FindLike(likes: map<int, Like>, userId: int, bookId: int): (r: Option<int>)
    requires LikePairsUnique(likes)
    ensures r.Some? <==> (userId, bookId) in LikedPairs(likes)
    ensures r.Some? ==> r.value in likes && likes[r.value].userId == userId && likes[r.value].bookId == bookId
  {
    if exists id :: id in likes && likes[id].userId == userId && likes[id].bookId == bookId then
      var id :| id in likes && likes[id].userId == userId && likes[id].bookId == bookId;
      Some(id)
    else None
  }

  // ---------------------------------------------------------------------------------
  // What the ON DELETE rules leave behind.

  /** The likes left after a book is deleted: `ON DELETE CASCADE` on `likes.book_id`. */
  function LikesWithoutBook(likes: map<int, Like>, bookId: int): (r: map<int, Like>)
    ensures forall id :: id in r <==> id in likes && likes[id].bookId != bookId
    ensures forall id | id in r :: r[id] == likes[id]
  {
    map id | id in likes && likes[id].bookId != bookId :: likes[id]
  }

  /** The books left after a user is deleted: `ON DELETE CASCADE` on `books.seller_id`. */
  function BooksWithoutSeller(books: map<int, Book>, userId: int): (r: map<int, Book>)
    ensures forall id :: id in r <==> id in books && books[id].sellerId != userId
    ensures forall id | id in r :: r[id] == books[id]
  {
    map id | id in books && books[id].sellerId != userId :: books[id]
  }

  /** The likes left after a user is deleted: their own likes go with them
      (`likes.user_id`), and so do the likes on their books (`likes.book_id`). */
  function LikesAfterUserDeleted(likes: map<int, Like>, userId: int, books: map<int, Book>): (r: map<int, Like>)
    ensures forall id :: id in r <==> id in likes && likes[id].userId != userId && likes[id].bookId in books
    ensures forall id | id in r :: r[id] == likes[id]
  {
    map id | id in likes && likes[id].userId != userId && likes[id].bookId in books :: likes[id]
  }

  /** The books after a category is deleted: `ON DELETE SET NULL` on `books.category_id`. */
  function ClearCategory(books: map<int, Book>, categoryId: int): (r: map<int, Book>)
    ensures r.Keys == books.Keys
    ensures forall id | id in r :: r[id] == if books[id].categoryId == Some(categoryId)
      then books[id].(categoryId := None) else books[id]
  {
    map id | id in books :: if books[id].categoryId == Some(categoryId)
      then books[id].(categoryId := None) else books[id]
  }

  /** The books after a language is deleted: `ON DELETE SET NULL` on `books.language_id`. */
  function ClearLanguage(books: map<int, Book>, languageId: int): (r: map<int, Book>)
    ensures r.Keys == books.Keys
    ensures forall id | id in r :: r[id] == if books[id].languageId == Some(languageId)
      then books[id].(languageId := None) else books[id]
  {
    map id | id in books :: if books[id].languageId == Some(languageId)
      then books[id].(languageId := None) else books[id]
  }

  // ---------------------------------------------------------------------------------
  // The like set, as `(user, book)` pairs.

  lemma {:induction false} LikedPairsInsert(likes: map<int, Like>, id: int, l: Like)
    requires id !in likes
    ensures LikedPairs(likes[id := l]) == LikedPairs(likes) + {(l.userId, l.bookId)}
  {
    var after := likes[id := l];
    forall p | p in LikedPairs(after) ensures p in LikedPairs(likes) + {(l.userId, l.bookId)} {
      var j :| j in after && (after[j].userId, after[j].bookId) == p;
      if j != id { assert j in likes; }
    }
    forall p | p in LikedPairs(likes) ensures p in LikedPairs(after) {
      var j :| j in likes && (likes[j].userId, likes[j].bookId) == p;
      assert j in after && after[j] == likes[j];
    }
    assert id in after;
  }

  lemma {:induction false} LikedPairsRemove(likes: map<int, Like>, id: int)
    requires LikePairsUnique(likes) && id in likes
    ensures LikedPairs(likes - {id}) == LikedPairs(likes) - {(likes[id].userId, likes[id].bookId)}
  {
    var after := likes - {id};
    var gone := (likes[id].userId, likes[id].bookId);
    forall p | p in LikedPairs(after) ensures p in LikedPairs(likes) && p != gone {
      var j :| j in after && (after[j].userId, after[j].bookId) == p;
      assert j in likes && j != id;
    }
    forall p | p in LikedPairs(likes) && p != gone ensures p in LikedPairs(after) {
      var j :| j in likes && (likes[j].userId, likes[j].bookId) == p;
      assert j != id;
      assert j in after;
    }
  }

  /** Deleting the row just inserted gives back the table before the insert. */
  lemma RemoveInserted(likes: map<int, Like>, id: int, l: Like)
    requires id !in likes
    ensures likes[id := l] - {id} == likes
  {
  }

  // ---------------------------------------------------------------------------------
  // Every change keeps the constraints.

  /** The constraints the database enforces, and the ones every stored listing keeps
      because it passed validation. */
  predicate Consistent(users: map<int, User>, books: map<int, Book>, likes: map<int, Like>,
                       categories: set<int>, languages: set<int>) {
    && Integrity(users, books, likes, categories, languages)
    && (forall id | id in books :: BookBounds(books[id]))
  }

  lemma AddUserKeepsConsistent(users: map<int, User>, books: map<int, Book>, likes: map<int, Like>,
                               categories: set<int>, languages: set<int>, u: User)
    requires Consistent(users, books, likes, categories, languages)
    requires u.id !in users && !EmailInUse(users, u.email)
    ensures Consistent(users[u.id := u], books, likes, categories, languages)
  {
    var after := users[u.id := u];
    forall a, b | a in after && b in after && after[a].email == after[b].email ensures a == b {
      if a != u.id && b != u.id {
        assert users[a].email == users[b].email;
      }
    }
  }

  lemma PutBookKeepsConsistent(users: map<int, User>, books: map<int, Book>, likes: map<int, Like>,
                               categories: set<int>, languages: set<int>, b: Book)
    requires Consistent(users, books, likes, categories, languages)
    requires b.sellerId in users && BookBounds(b)
    requires b.categoryId.Some? ==> b.categoryId.value in categories
    requires b.languageId.Some? ==> b.languageId.value in languages
    ensures Consistent(users, books[b.id := b], likes, categories, languages)
  {
  }

  lemma DeleteBookKeepsConsistent(users: map<int, User>, books: map<int, Book>, likes: map<int, Like>,
                                  categories: set<int>, languages: set<int>, id: int)
    requires Consistent(users, books, likes, categories, languages)
    ensures Consistent(users, books - {id}, LikesWithoutBook(likes, id), categories, languages)
  {
  }

  lemma AddLikeKeepsConsistent(users: map<int, User>, books: map<int, Book>, likes: map<int, Like>,
                               categories: set<int>, languages: set<int>, l: Like)
    requires Consistent(users, books, likes, categories, languages)
    requires l.id !in likes && l.userId in users && l.bookId in books
    requires (l.userId, l.bookId) !in LikedPairs(likes)
    ensures Consistent(users, books, likes[l.id := l], categories, languages)
  {
    var after := likes[l.id := l];
    forall a, b | a in after && b in after
      && after[a].userId == after[b].userId && after[a].bookId == after[b].bookId
      ensures a == b
    {
      if a != l.id && b != l.id {
        assert likes[a] == after[a] && likes[b] == after[b];
      }
    }
  }

  lemma RemoveLikeKeepsConsistent(users: map<int, User>, books: map<int, Book>, likes: map<int, Like>,
                                  categories: set<int>, languages: set<int>, id: int)
    requires Consistent(users, books, likes, categories, languages)
    ensures Consistent(users, books, likes - {id}, categories, languages)
  {
  }

  lemma PutUserKeepsConsistent(users: map<int, User>, books: map<int, Book>, likes: map<int, Like>,
                               categories: set<int>, languages: set<int>, u: User)
    requires Consistent(users, books, likes, categories, languages)
    requires u.id in users && u.email == users[u.id].email
    ensures Consistent(users[u.id := u], books, likes, categories, languages)
  {
    var after := users[u.id := u];
    forall a, b | a in after && b in after && after[a].email == after[b].email ensures a == b {
      assert after[a].email == users[a].email && after[b].email == users[b].email;
    }
  }

  lemma DeleteUserKeepsConsistent(users: map<int, User>, books: map<int, Book>, likes: map<int, Like>,
                                  categories: set<int>, languages: set<int>, userId: int)
    requires Consistent(users, books, likes, categories, languages)
    ensures var left := BooksWithoutSeller(books, userId);
      Consistent(users - {userId}, left, LikesAfterUserDeleted(likes, userId, left), categories, languages)
  {
  }

  lemma DeleteCategoryKeepsConsistent(users: map<int, User>, books: map<int, Book>, likes: map<int, Like>,
                                      categories: set<int>, languages: set<int>, c: int)
    requires Consistent(users, books, likes, categories, languages)
    ensures Consistent(users, ClearCategory(books, c), likes, categories - {c}, languages)
  {
  }

  lemma DeleteLanguageKeepsConsistent(users: map<int, User>, books: map<int, Book>, likes: map<int, Like>,
                                      categories: set<int>, languages: set<int>, l: int)
    requires Consistent(users, books, likes, categories, languages)
    ensures Consistent(users, ClearLanguage(books, l), likes, categories, languages - {l})
  {
  }

  // ---------------------------------------------------------------------------------
  // New rows.

  /** The row a registration inserts: the email, the hash of the stripped password and
      the two names; every other profile column is null. */
  function NewUser(id: int, req: RegisterRequest, passwordHash: string, now: nat): (u: User)
    ensures u.id == id && u.email == req.email && u.password == passwordHash
    ensures u.firstName == req.firstName && u.lastName == req.lastName
    ensures u.phone.None? && u.telegramUsername.None? && u.avatarUrl.None? && u.bio.None?
    ensures u.createdAt == now
  {
    User(id, req.email, passwordHash, req.firstName, req.lastName, None, None, None, None, now)
  }

  /** The row a create inserts: every field of the body, the caller as seller, status
      forced to pending (the column default), both timestamps the current time. */
  function NewBook(id: int, c: BookCreate, sellerId: int, now: nat): (b: Book)
    ensures b.id == id && b.sellerId == sellerId && b.status == DefaultStatus
    ensures b.title == c.title && b.author == c.author && b.description == c.description
    ensures b.images == Some(c.images) && b.categoryId == c.categoryId && b.languageId == c.languageId
    ensures b.listingType == c.listingType && b.price == c.price && b.location == c.location
    ensures b.createdAt == now && b.updatedAt == now
  {
    Book(id, c.title, c.author, c.description, Some(c.images), sellerId, c.categoryId, c.languageId,
         c.listingType, c.price, c.location, Pending, now, now)
  }

  /** A valid create body gives a row that keeps the stored bounds and the price rule,
      so the created row can always be answered with. */
  lemma NewBookKeepsRules(id: int, c: BookCreate, sellerId: int, now: nat)
    requires CreateViolations(c) == []
    ensures BookBounds(NewBook(id, c, sellerId, now))
    ensures PriceMatchesListingType(NewBook(id, c, sellerId, now))
    ensures Presentable(NewBook(id, c, sellerId, now))
  {
  }

  /** The reference checks of `create_book`, in order: a truthy category id that does not
      exist, then a truthy language id that does not exist, answer 404; a falsy id (0)
      skips its check, and then the foreign key refuses the insert. */
  function CreateReferenceError(categories: set<int>, languages: set<int>, c: BookCreate): (r: Option<Error>)
    ensures r.None? <==>
      (c.categoryId.Some? ==> c.categoryId.value in categories) && (c.languageId.Some? ==> c.languageId.value in languages)
    ensures TruthyInt(c.categoryId) && c.categoryId.value !in categories ==> r == Some(NotFound(CategoryNotFound))
    ensures ((TruthyInt(c.categoryId) ==> c.categoryId.value in categories)
      && TruthyInt(c.languageId) && c.languageId.value !in languages) ==> r == Some(NotFound(LanguageNotFound))
    ensures r.Some? && r.value.ServerError? ==>
      (c.categoryId == Some(0) && 0 !in categories) || (c.languageId == Some(0) && 0 !in languages)
    ensures r.Some? && !r.value.NotFound? ==> r.value == ServerError(InternalServerError)
  {
    if TruthyInt(c.categoryId) && c.categoryId.value !in categories then Some(NotFound(CategoryNotFound))
    else if TruthyInt(c.languageId) && c.languageId.value !in languages then Some(NotFound(LanguageNotFound))
    else if c.categoryId.Some? && c.categoryId.value !in categories then Some(ServerError(InternalServerError))
    else if c.languageId.Some? && c.languageId.value !in languages then Some(ServerError(InternalServerError))
    else None
  }

  /** A category or language id of a row that names no row of its lookup table: the
      foreign keys refuse it. */
  predicate DanglingReference(categories: set<int>, languages: set<int>, nb: Book) {
    || (nb.categoryId.Some? && nb.categoryId.value !in categories)
    || (nb.languageId.Some? && nb.languageId.value !in languages)
  }

  /** The commit of an update: a required column set to null, or an id that names no
      category or language, makes the store refuse it. */
  predicate CommitRefused(categories: set<int>, languages: set<int>, u: BookUpdate, nb: Book) {
    ClearsRequiredField(u) || DanglingReference(categories, languages, nb)
  }

  /** An update that is valid, whose book exists and belongs to the caller, and whose
      commit the store accepts. */
  predicate UpdateCommits(books: map<int, Book>, categories: set<int>, languages: set<int>,
                          userId: int, bookId: int, u: BookUpdate) {
    && UpdateViolations(u) == [] && bookId in books && books[bookId].sellerId == userId
    && !CommitRefused(categories, languages, u, Patched(books[bookId], u))
  }

  /** The updated row, with `updated_at` moved to the current time when a column really
      changed. */
  function Stamped(old_: Book, nb: Book, now: nat): (r: Book)
    requires nb.updatedAt == old_.updatedAt
    ensures r == old_ <==> nb == old_
    ensures r.(updatedAt := nb.updatedAt) == nb
    ensures r != old_ ==> r.updatedAt == now
  {
    if nb == old_ then old_ else nb.(updatedAt := now)
  }

  // ---------------------------------------------------------------------------------

  class Marketplace {
    var users: map<int, User>
    var books: map<int, Book>
    var likes: map<int, Like>
    var categories: set<int>
    var languages: set<int>
    /** The next values of the three id sequences. */
    var nextUserId: int
    var nextBookId: int
    var nextLikeId: int

    ghost predicate Valid()
      reads this
    {
      && Consistent(users, books, likes, categories, languages)
      && (forall id | id in users :: id < nextUserId)
      && (forall id | id in books :: id < nextBookId)
      && (forall id | id in likes :: id < nextLikeId)
    }

    /** An empty database with the given lookup tables. */
    constructor (categories: set<int>, languages: set<int>)
      ensures Valid()
      ensures users == map[] && books == map[] && likes == map[]
      ensures this.categories == categories && this.languages == languages
    {
      users := map[];
      books := map[];
      likes := map[];
      this.categories := categories;
      this.languages := languages;
      nextUserId := 1;
      nextBookId := 1;
      nextLikeId := 1;
    }

    // -------------------------------------------------------------------------------
    // `POST /auth/register`.

    /** Validation, then the stripped password is hashed, then the insert, which the
        UNIQUE constraint on the email refuses for a registered email. */
    method Register(req: RegisterRequest, hash: string -> Option<string>, now: nat) returns (r: Result<UserProfile>)
      requires Valid()
      modifies this
      ensures Valid()
      ensures books == old(books) && likes == old(likes)
      ensures categories == old(categories) && languages == old(languages)
      ensures RegisterViolations(req) != [] ==> r == Err(ValidationFailed(RegisterViolations(req)))
      ensures RegisterViolations(req) == [] && hash(Strip(req.password)).None? ==>
        r == Err(Unprocessable(PasswordTooLong))
      ensures RegisterViolations(req) == [] && hash(Strip(req.password)).Some? && EmailInUse(old(users), req.email) ==>
        r == Err(Conflict(EmailTaken))
      ensures r.Ok? <==>
        RegisterViolations(req) == [] && hash(Strip(req.password)).Some? && !EmailInUse(old(users), req.email)
      ensures nextBookId == old(nextBookId) && nextLikeId == old(nextLikeId)
      ensures r.Err? ==> users == old(users) && nextUserId == old(nextUserId)
      ensures r.Ok? ==>
        var u := NewUser(old(nextUserId), req, hash(Strip(req.password)).value, now);
        && old(nextUserId) !in old(users)
        && users == old(users)[u.id := u]
        && nextUserId == old(nextUserId) + 1
        && r.value == ProfileOf(u)
    {
      var v := RegisterViolations(req);
      if v != [] {
        return Err(ValidationFailed(v));
      }
      var cleanPassword := Strip(req.password);
      var hashed := hash(cleanPassword);
      if hashed.None? {
        return Err(Unprocessable(PasswordTooLong));
      }
      if EmailInUse(users, req.email) {
        return Err(Conflict(EmailTaken));
      }
      var u := NewUser(nextUserId, req, hashed.value, now);
      assert u.id !in users;
      AddUserKeepsConsistent(users, books, likes, categories, languages, u);
      users := users[u.id := u];
      nextUserId := nextUserId + 1;
      r := Ok(ProfileOf(u));
    }

    // -------------------------------------------------------------------------------
    // `PUT /users/me`.

    /** The `setattr` loop over the caller's row, then the commit. */
    method UpdateMyProfile(userId: int, p: UserUpdate) returns (r: UserProfile)
      requires Valid() && userId in users
      modifies this
      ensures Valid()
      ensures users == old(users)[userId := ProfilePatched(old(users)[userId], p)]
      ensures books == old(books) && likes == old(likes)
      ensures categories == old(categories) && languages == old(languages)
      ensures nextUserId == old(nextUserId) && nextBookId == old(nextBookId) && nextLikeId == old(nextLikeId)
      ensures r == ProfileOf(users[userId])
    {
      var nu := ApplyProfileUpdate(users[userId], p);
      ProfileUpdateKeepsCredentials(users[userId], p);
      PutUserKeepsConsistent(users, books, likes, categories, languages, nu);
      users := users[userId := nu];
      r := ProfileOf(nu);
    }

    // -------------------------------------------------------------------------------
    // `POST /books`.

    method CreateBook(userId: int, c: BookCreate, now: nat) returns (r: Result<Book>)
      requires Valid() && userId in users
      modifies this
      ensures Valid()
      ensures users == old(users) && likes == old(likes)
      ensures categories == old(categories) && languages == old(languages)
      ensures CreateViolations(c) != [] ==> r == Err(ValidationFailed(CreateViolations(c)))
      ensures CreateViolations(c) == [] && CreateReferenceError(categories, languages, c).Some? ==>
        r == Err(CreateReferenceError(categories, languages, c).value)
      ensures r.Ok? <==> CreateViolations(c) == [] && CreateReferenceError(categories, languages, c).None?
      ensures nextUserId == old(nextUserId) && nextLikeId == old(nextLikeId)
      ensures r.Err? ==> books == old(books) && nextBookId == old(nextBookId)
      ensures r.Ok? ==>
        && old(nextBookId) !in old(books)
        && r.value == NewBook(old(nextBookId), c, userId, now)
        && Presentable(r.value)
        && books == old(books)[r.value.id := r.value]
        && nextBookId == old(nextBookId) + 1
    {
      var v := CreateViolations(c);
      if v != [] {
        return Err(ValidationFailed(v));
      }
      var refError := CreateReferenceError(categories, languages, c);
      if refError.Some? {
        return Err(refError.value);
      }
      var b := NewBook(nextBookId, c, userId, now);
      NewBookKeepsRules(nextBookId, c, userId, now);
      assert b.id !in books;
      PutBookKeepsConsistent(users, books, likes, categories, languages, b);
      books := books[b.id := b];
      nextBookId := nextBookId + 1;
      r := Ok(b);
    }

    // -------------------------------------------------------------------------------
    // `PUT /books/{book_id}`.

    method UpdateBook(userId: int, bookId: int, u: BookUpdate, now: nat) returns (r: Result<Book>)
      requires Valid() && userId in users
      modifies this
      ensures Valid()
      ensures users == old(users) && likes == old(likes)
      ensures categories == old(categories) && languages == old(languages)
      ensures nextUserId == old(nextUserId) && nextBookId == old(nextBookId) && nextLikeId == old(nextLikeId)
      ensures UpdateViolations(u) != [] ==> r == Err(ValidationFailed(UpdateViolations(u)))
      ensures UpdateViolations(u) == [] && bookId !in old(books) ==> r == Err(NotFound(BookNotFound))
      ensures UpdateViolations(u) == [] && bookId in old(books) && old(books)[bookId].sellerId != userId ==>
        r == Err(Forbidden(NotYourBookUpdate))
      ensures (UpdateViolations(u) == [] && bookId in old(books) && old(books)[bookId].sellerId == userId
        && CommitRefused(categories, languages, u, Patched(old(books)[bookId], u))) ==>
        r == Err(ServerError(InternalServerError))
      ensures !UpdateCommits(old(books), categories, languages, userId, bookId, u) ==> books == old(books)
      ensures UpdateCommits(old(books), categories, languages, userId, bookId, u) ==>
        var row := Stamped(old(books)[bookId], Patched(old(books)[bookId], u), now);
        && books == old(books)[bookId := row]
        && (r.Ok? <==> Presentable(row))
        && (r.Ok? ==> r.value == row)
        && (r.Err? ==> r == Err(ServerError(InternalServerError)))
      ensures r.Ok? ==> UpdateCommits(old(books), categories, languages, userId, bookId, u)
    {
      var v := UpdateViolations(u);
      if v != [] {
        return Err(ValidationFailed(v));
      }
      if bookId !in books {
        return Err(NotFound(BookNotFound));
      }
      var b := books[bookId];
      if b.sellerId != userId {
        return Err(Forbidden(NotYourBookUpdate));
      }
      var nb, clears := ApplyBookUpdate(b, u);
      if clears || DanglingReference(categories, languages, nb) {
        return Err(ServerError(InternalServerError));
      }
      PatchKeepsIdentity(b, u);
      var stamped := Stamped(b, nb, now);
      ValidPatchKeepsBounds(b, u);
      PutBookKeepsConsistent(users, books, likes, categories, languages, stamped);
      books := books[bookId := stamped];
      if !Presentable(stamped) {
        return Err(ServerError(InternalServerError));
      }
      r := Ok(stamped);
    }

    // -------------------------------------------------------------------------------
    // `DELETE /books/{book_id}`.

    method DeleteBook(userId: int, bookId: int) returns (r: Result<()>)
      requires Valid() && userId in users
      modifies this
      ensures Valid()
      ensures users == old(users) && categories == old(categories) && languages == old(languages)
      ensures nextUserId == old(nextUserId) && nextBookId == old(nextBookId) && nextLikeId == old(nextLikeId)
      ensures bookId !in old(books) ==> r == Err(NotFound(BookNotFound))
      ensures bookId in old(books) && old(books)[bookId].sellerId != userId ==> r == Err(Forbidden(NotYourBookDelete))
      ensures r.Ok? <==> bookId in old(books) && old(books)[bookId].sellerId == userId
      ensures r.Err? ==> books == old(books) && likes == old(likes)
      ensures r.Ok? ==> books == old(books) - {bookId} && likes == LikesWithoutBook(old(likes), bookId)
    {
      if bookId !in books {
        return Err(NotFound(BookNotFound));
      }
      if books[bookId].sellerId != userId {
        return Err(Forbidden(NotYourBookDelete));
      }
      DeleteBookKeepsConsistent(users, books, likes, categories, languages, bookId);
      books := books - {bookId};
      likes := LikesWithoutBook(likes, bookId);
      r := Ok(());
    }

    // -------------------------------------------------------------------------------
    // `POST /likes` and `DELETE /likes/{book_id}`.

    method LikeBook(userId: int, bookId: int, now: nat) returns (r: Result<Like>)
      requires Valid() && userId in users
      modifies this
      ensures Valid()
      ensures users == old(users) && books == old(books)
      ensures categories == old(categories) && languages == old(languages)
      ensures nextUserId == old(nextUserId) && nextBookId == old(nextBookId)
      ensures bookId !in books ==> r == Err(NotFound(BookNotFound))
      ensures bookId in books && (userId, bookId) in old(LikedPairs(likes)) ==> r == Err(BadRequest(AlreadyLiked))
      ensures bookId !in books || (userId, bookId) in old(LikedPairs(likes)) ==>
        likes == old(likes) && nextLikeId == old(nextLikeId)
      ensures bookId in books && (userId, bookId) !in old(LikedPairs(likes)) ==>
        var l := Like(old(nextLikeId), userId, bookId, now);
        && old(nextLikeId) !in old(likes)
        && likes == old(likes)[l.id := l]
        && LikedPairs(likes) == old(LikedPairs(likes)) + {(userId, bookId)}
        && nextLikeId == old(nextLikeId) + 1
        && (r.Ok? <==> Presentable(books[bookId]))
        && (r.Ok? ==> r.value == l)
        && (r.Err? ==> r == Err(ServerError(InternalServerError)))
    {
      if bookId !in books {
        return Err(NotFound(BookNotFound));
      }
      if FindLike(likes, userId, bookId).Some? {
        return Err(BadRequest(AlreadyLiked));
      }
      var l := Like(nextLikeId, userId, bookId, now);
      assert l.id !in likes;
      AddLikeKeepsConsistent(users, books, likes, categories, languages, l);
      LikedPairsInsert(likes, l.id, l);
      likes := likes[l.id := l];
      nextLikeId := nextLikeId + 1;
      if !Presentable(books[bookId]) {
        return Err(ServerError(InternalServerError));
      }
      r := Ok(l);
    }

    method UnlikeBook(userId: int, bookId: int) returns (r: Result<()>)
      requires Valid() && userId in users
      modifies this
      ensures Valid()
      ensures users == old(users) && books == old(books)
      ensures categories == old(categories) && languages == old(languages)
      ensures nextUserId == old(nextUserId) && nextBookId == old(nextBookId) && nextLikeId == old(nextLikeId)
      ensures r.Ok? <==> (userId, bookId) in old(LikedPairs(likes))
      ensures r.Err? ==> r == Err(NotFound(LikeNotFound)) && likes == old(likes)
      ensures r.Ok? ==>
        && (exists id :: (id in old(likes) && old(likes)[id].userId == userId && old(likes)[id].bookId == bookId
          && likes == old(likes) - {id}))
        && LikedPairs(likes) == old(LikedPairs(likes)) - {(userId, bookId)}
    {
      var found := FindLike(likes, userId, bookId);
      if found.None? {
        return Err(NotFound(LikeNotFound));
      }
      var id := found.value;
      RemoveLikeKeepsConsistent(users, books, likes, categories, languages, id);
      LikedPairsRemove(likes, id);
      likes := likes - {id};
      r := Ok(());
    }

    /** Like, unlike and like again: the unlike succeeds, each like succeeds exactly when
        the book passes `BookResponse` (and is stored either way), and the like set ends as
        if only the last like had happened, under a fresh id. */
    method LikeUnlikeLike(userId: int, bookId: int, now: nat) returns (first: Result<Like>, undo: Result<()>, again: Result<Like>)
      requires Valid() && userId in users && bookId in books
      requires (userId, bookId) !in LikedPairs(likes)
      modifies this
      ensures Valid()
      ensures undo.Ok?
      ensures first.Ok? <==> Presentable(old(books)[bookId])
      ensures again.Ok? <==> Presentable(old(books)[bookId])
      ensures first.Err? ==> first == Err(ServerError(InternalServerError))
      ensures again.Err? ==> again == Err(ServerError(InternalServerError))
      ensures users == old(users) && books == old(books)
      ensures categories == old(categories) && languages == old(languages)
      ensures nextUserId == old(nextUserId) && nextBookId == old(nextBookId) && nextLikeId == old(nextLikeId) + 2
      ensures LikedPairs(likes) == old(LikedPairs(likes)) + {(userId, bookId)}
      ensures likes == old(likes)[old(nextLikeId) + 1 := Like(old(nextLikeId) + 1, userId, bookId, now)]
      ensures first.Ok? && again.Ok? ==> again.value.id != first.value.id
    {
      ghost var before := likes;
      ghost var n := nextLikeId;
      first := LikeBook(userId, bookId, now);
      ghost var liked := likes;
      assert liked == before[n := Like(n, userId, bookId, now)];
      undo := UnlikeBook(userId, bookId);
      ghost var id :| id in liked && liked[id].userId == userId && liked[id].bookId == bookId && likes == liked - {id};
      assert LikePairsUnique(liked) && n in liked;
      assert id == n;
      RemoveInserted(before, n, Like(n, userId, bookId, now));
      again := LikeBook(userId, bookId, now);
    }

    /** Liking the same book twice: the first like is stored (and answered with a 500
        when the book fails `BookResponse`), the second is refused and changes nothing. */
    method LikeTwice(userId: int, bookId: int, now: nat) returns (first: Result<Like>, second: Result<Like>)
      requires Valid() && userId in users && bookId in books
      requires (userId, bookId) !in LikedPairs(likes)
      modifies this
      ensures Valid()
      ensures first.Ok? <==> Presentable(old(books)[bookId])
      ensures second == Err(BadRequest(AlreadyLiked))
      ensures users == old(users) && books == old(books)
      ensures categories == old(categories) && languages == old(languages)
      ensures nextUserId == old(nextUserId) && nextBookId == old(nextBookId) && nextLikeId == old(nextLikeId) + 1
      ensures likes == old(likes)[old(nextLikeId) := Like(old(nextLikeId), userId, bookId, now)]
      ensures first.Ok? ==> first.value == Like(old(nextLikeId), userId, bookId, now)
    {
      first := LikeBook(userId, bookId, now);
      second := LikeBook(userId, bookId, now);
    }

    // -------------------------------------------------------------------------------
    // The ON DELETE rules of the schema.

    /** Deleting a user deletes their books, their likes and the likes on their books. */
    method DeleteUser(userId: int)
      requires Valid()
      modifies this
      ensures Valid()
      ensures users == old(users) - {userId}
      ensures books == BooksWithoutSeller(old(books), userId)
      ensures likes == LikesAfterUserDeleted(old(likes), userId, books)
      ensures categories == old(categories) && languages == old(languages)
      ensures nextUserId == old(nextUserId) && nextBookId == old(nextBookId) && nextLikeId == old(nextLikeId)
    {
      DeleteUserKeepsConsistent(users, books, likes, categories, languages, userId);
      var left := BooksWithoutSeller(books, userId);
      likes := LikesAfterUserDeleted(likes, userId, left);
      books := left;
      users := users - {userId};
    }

    /** Deleting a category keeps its books, with no category. */
    method DeleteCategory(c: int)
      requires Valid()
      modifies this
      ensures Valid()
      ensures categories == old(categories) - {c}
      ensures books == ClearCategory(old(books), c)
      ensures users == old(users) && likes == old(likes) && languages == old(languages)
      ensures nextUserId == old(nextUserId) && nextBookId == old(nextBookId) && nextLikeId == old(nextLikeId)
    {
      DeleteCategoryKeepsConsistent(users, books, likes, categories, languages, c);
      books := ClearCategory(books, c);
      categories := categories - {c};
    }

    /** Deleting a language keeps its books, with no language. */
    method DeleteLanguage(l: int)
      requires Valid()
      modifies this
      ensures Valid()
      ensures languages == old(languages) - {l}
      ensures books == ClearLanguage(old(books), l)
      ensures users == old(users) && likes == old(likes) && categories == old(categories)
      ensures nextUserId == old(nextUserId) && nextBookId == old(nextBookId) && nextLikeId == old(nextLikeId)
    {
      DeleteLanguageKeepsConsistent(users, books, likes, categories, languages, l);
      books := ClearLanguage(books, l);
      languages := languages - {l};
    }
  }
}
