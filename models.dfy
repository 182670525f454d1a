/** The relational schema: the users, books and likes tables, their enums and column
    defaults, and the constraints the database enforces on them (primary keys, NOT
    NULL, foreign keys, UNIQUE). Categories and languages are lookup tables; only their
    primary keys matter here. */
module Models {
  import opened Common

  datatype ListingType = Sell | Free

  datatype ListingStatus = Pending | Approved | Rejected

  /** The column default of `books.status`. */
  const DefaultStatus: ListingStatus := Pending

  /** A row of the books table. `seller_id`, `title`, `author`, `images`,
      `listing_type` and `status` are NOT NULL; the other columns are nullable.
      `images` is a JSON column: `None` is the JSON value null, which the column stores
      for a Python `None` and which its NOT NULL constraint therefore lets through.
      Timestamps are abstract clock readings. */
  datatype Book = Book(
    id: int,
    title: string,
    author: string,
    description: Option<string>,
    images: Option<seq<string>>,
    sellerId: int,
    categoryId: Option<int>,
    languageId: Option<int>,
    listingType: ListingType,
    price: Option<real>,
    location: Option<string>,
    status: ListingStatus,
    createdAt: nat,
    updatedAt: nat)

  /** A row of the users table; `password` holds the password hash. */
  datatype User = User(
    id: int,
    email: string,
    password: string,
    firstName: Option<string>,
    lastName: Option<string>,
    phone: Option<string>,
    telegramUsername: Option<string>,
    avatarUrl: Option<string>,
    bio: Option<string>,
    createdAt: nat)

  /** A row of the likes table: one user saving one book. */
  datatype Like = Like(id: int, userId: int, bookId: int, createdAt: nat)

  /** Price present exactly for sell listings: the rule the create schema enforces. It is
      not a table constraint (the price column is simply nullable). */
  predicate PriceMatchesListingType(b: Book) {
    (b.listingType == Sell) <==> b.price.Some?
  }

  /** UNIQUE(users.email). */
  predicate EmailsUnique(users: map<int, User>) {
    forall a, b | a in users && b in users && users[a].email == users[b].email :: a == b
  }

  /** UNIQUE(likes.user_id, likes.book_id), the constraint `unique_user_book_like`. */
  predicate LikePairsUnique(likes: map<int, Like>) {
    forall a, b | a in likes && b in likes
      && likes[a].userId == likes[b].userId && likes[a].bookId == likes[b].bookId :: a == b
  }

  /** The (user, book) pairs the likes table holds. */
  function LikedPairs(likes: map<int, Like>): (pairs: set<(int, int)>)
    ensures forall id | id in likes :: (likes[id].userId, likes[id].bookId) in pairs
    ensures forall p | p in pairs :: exists id | id in likes :: (likes[id].userId, likes[id].bookId) == p
  {
    set id | id in likes :: (likes[id].userId, likes[id].bookId)
  }

  /** Every row is stored under its own primary key. */
  predicate KeyedUsers(users: map<int, User>) {
    forall id | id in users :: users[id].id == id
  }

  predicate KeyedBooks(books: map<int, Book>) {
    forall id | id in books :: books[id].id == id
  }

  predicate KeyedLikes(likes: map<int, Like>) {
    forall id | id in likes :: likes[id].id == id
  }

  /** The foreign keys of the books table: `seller_id` references users (NOT NULL),
      `category_id` and `language_id`, when not null, reference their lookup tables. */
  predicate BookReferencesHold(books: map<int, Book>, users: map<int, User>,
                               categories: set<int>, languages: set<int>) {
    forall id | id in books ::
      && books[id].sellerId in users
      && (books[id].categoryId.Some? ==> books[id].categoryId.value in categories)
      && (books[id].languageId.Some? ==> books[id].languageId.value in languages)
  }

  /** The foreign keys of the likes table: both NOT NULL, both referencing rows. */
  predicate LikeReferencesHold(likes: map<int, Like>, users: map<int, User>, books: map<int, Book>) {
    forall id | id in likes :: likes[id].userId in users && likes[id].bookId in books
  }

  /** Every constraint the schema declares, over the whole database. */
  predicate Integrity(users: map<int, User>, books: map<int, Book>, likes: map<int, Like>,
                      categories: set<int>, languages: set<int>) {
    && KeyedUsers(users) && KeyedBooks(books) && KeyedLikes(likes)
    && EmailsUnique(users)
    && LikePairsUnique(likes)
    && BookReferencesHold(books, users, categories, languages)
    && LikeReferencesHold(likes, users, books)
  }
}
