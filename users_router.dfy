/** The endpoints under `/users/me`: the caller's profile, the patch behind a profile
    update, the caller's own listings and the books the caller saved. */
module UsersRouter {
  import opened Common
  import opened Models
  import opened Tables
  import opened Ordering
  import opened Paging
  import opened BookSchema
  import opened UserSchema
  import opened BooksRouter

  /** `GET /users/me`: the caller's row, shown as its profile: every column but the
      password hash. */
  function GetMyProfile(current: User): (p: UserProfile)
    ensures p.id == current.id && p.email == current.email && p.createdAt == current.createdAt
    ensures p.firstName == current.firstName && p.lastName == current.lastName && p.phone == current.phone
    ensures p.telegramUsername == current.telegramUsername && p.avatarUrl == current.avatarUrl
    ensures p.bio == current.bio
  {
    ProfileOf(current)
  }

  // ---------------------------------------------------------------------------------
  // Profile update: the dump of the body assigned to the caller's row.

  /** `setattr(current_user, field, value)`; every profile column is nullable. */
  function AssignProfile(u: User, a: ProfileAssignment): User {
    match a.field
    case FirstName => u.(firstName := a.value)
    case LastName => u.(lastName := a.value)
    case Phone => u.(phone := a.value)
    case TelegramUsername => u.(telegramUsername := a.value)
    case AvatarUrl => u.(avatarUrl := a.value)
    case Bio => u.(bio := a.value)
  }

  function AssignProfileSlot(u: User, s: Option<ProfileAssignment>): User {
    if s.Some? then AssignProfile(u, s.value) else u
  }

  /** The row after a profile update, field by field: a field that was sent takes the
      value sent, null included; every other column keeps its value. */
  function ProfilePatched(u: User, p: UserUpdate): User {
    u.(
      firstName := if p.firstName.Set? then p.firstName.value else u.firstName,
      lastName := if p.lastName.Set? then p.lastName.value else u.lastName,
      phone := if p.phone.Set? then p.phone.value else u.phone,
      telegramUsername := if p.telegramUsername.Set? then p.telegramUsername.value else u.telegramUsername,
      avatarUrl := if p.avatarUrl.Set? then p.avatarUrl.value else u.avatarUrl,
      bio := if p.bio.Set? then p.bio.value else u.bio)
  }

  /** The body restricted to its first `k` fields. */
  function ProfilePrefix(p: UserUpdate, k: int): UserUpdate {
    UserUpdate(
      if k > 0 then p.firstName else Unset,
      if k > 1 then p.lastName else Unset,
      if k > 2 then p.phone else Unset,
      if k > 3 then p.telegramUsername else Unset,
      if k > 4 then p.avatarUrl else Unset,
      if k > 5 then p.bio else Unset)
  }

  // One lemma per field: slot `k` of the dump, assigned after the first `k` fields.

  lemma StepFirstName(u: User, p: UserUpdate)
    ensures ProfilePatched(u, ProfilePrefix(p, 1)) == AssignProfileSlot(ProfilePatched(u, ProfilePrefix(p, 0)), DumpProfileSlots(p)[0])
  {
  }

  lemma StepLastName(u: User, p: UserUpdate)
    ensures ProfilePatched(u, ProfilePrefix(p, 2)) == AssignProfileSlot(ProfilePatched(u, ProfilePrefix(p, 1)), DumpProfileSlots(p)[1])
  {
  }

  lemma StepPhone(u: User, p: UserUpdate)
    ensures ProfilePatched(u, ProfilePrefix(p, 3)) == AssignProfileSlot(ProfilePatched(u, ProfilePrefix(p, 2)), DumpProfileSlots(p)[2])
  {
  }

  lemma StepTelegramUsername(u: User, p: UserUpdate)
    ensures ProfilePatched(u, ProfilePrefix(p, 4)) == AssignProfileSlot(ProfilePatched(u, ProfilePrefix(p, 3)), DumpProfileSlots(p)[3])
  {
  }

  lemma StepAvatarUrl(u: User, p: UserUpdate)
    ensures ProfilePatched(u, ProfilePrefix(p, 5)) == AssignProfileSlot(ProfilePatched(u, ProfilePrefix(p, 4)), DumpProfileSlots(p)[4])
  {
  }

  lemma StepBio(u: User, p: UserUpdate)
    ensures ProfilePatched(u, ProfilePrefix(p, 6)) == AssignProfileSlot(ProfilePatched(u, ProfilePrefix(p, 5)), DumpProfileSlots(p)[5])
  {
  }

  lemma ProfilePrefixStep(u: User, p: UserUpdate, k: int)
    requires 0 <= k < 6
    ensures ProfilePatched(u, ProfilePrefix(p, k + 1))
         == AssignProfileSlot(ProfilePatched(u, ProfilePrefix(p, k)), DumpProfileSlots(p)[k])
  {
    if k == 0 { StepFirstName(u, p); }
    else if k == 1 { StepLastName(u, p); }
    else if k == 2 { StepPhone(u, p); }
    else if k == 3 { StepTelegramUsername(u, p); }
    else if k == 4 { StepAvatarUrl(u, p); }
    else { StepBio(u, p); }
  }

  /** The `setattr` loop of `PUT /users/me` over the caller's row. */
  method ApplyProfileUpdate(current: User, p: UserUpdate) returns (nu: User)
    ensures nu == ProfilePatched(current, p)
  {
    var slots := DumpProfileSlots(p);
    nu := current;
    for i := 0 to 6
      invariant nu == ProfilePatched(current, ProfilePrefix(p, i))
    {
      ProfilePrefixStep(current, p, i);
      if slots[i].Some? {
        nu := AssignProfile(nu, slots[i].value);
      }
    }
    assert ProfilePrefix(p, 6) == p;
  }

  /** A profile update never changes the key, the email, the password or the creation
      time of the row. */
  lemma ProfileUpdateKeepsCredentials(u: User, p: UserUpdate)
    ensures var n := ProfilePatched(u, p);
      n.id == u.id && n.email == u.email && n.password == u.password && n.createdAt == u.createdAt
  {
  }

  /** Leaving every field out changes nothing, sending the same body twice is the same as
      sending it once, and a field sent as null clears that column. */
  lemma ProfilePatchLaws(u: User, p: UserUpdate)
    ensures ProfilePatched(u, EmptyProfileUpdate) == u
    ensures ProfilePatched(ProfilePatched(u, p), p) == ProfilePatched(u, p)
    ensures p.bio == Set(None) ==> ProfilePatched(u, p).bio.None?
  {
  }

  // ---------------------------------------------------------------------------------
  // The caller's listings.

  /** The WHERE clause of `GET /users/me/listings`: the caller's books, of the given
      status when one is asked for, of any status otherwise. */
  predicate OwnListing(userId: int, statusFilter: Option<ListingStatus>, b: Book) {
    b.sellerId == userId && (statusFilter.Some? ==> b.status == statusFilter.value)
  }

  function OwnListingKeys(books: map<int, Book>, userId: int, statusFilter: Option<ListingStatus>): (ks: set<int>)
    ensures forall id :: id in ks <==> id in books && OwnListing(userId, statusFilter, books[id])
  {
    KeysWhere(books, b => OwnListing(userId, statusFilter, b))
  }

  /** The caller's books matching the status filter, newest first. */
  function OwnNewestFirst(books: map<int, Book>, userId: int, statusFilter: Option<ListingStatus>): seq<Book> {
    SortDescending(Where(Rows(books), b => OwnListing(userId, statusFilter, b)), CreatedAt)
  }

  /** `GET /users/me/listings`. Out-of-range paging is refused; otherwise the requested
      page of the caller's own books, newest first, counted before pagination. A book on
      that page that fails `BookResponse` turns the answer into a 500. */
  function MyListings(books: map<int, Book>, userId: int, statusFilter: Option<ListingStatus>,
                      page: int, pageSize: int): (r: Result<BookList>)
    ensures PagingViolations(page, pageSize) != [] ==> r == Err(ValidationFailed(PagingViolations(page, pageSize)))
    ensures PagingViolations(page, pageSize) == [] ==>
      && (r.Ok? <==> forall b | b in Slice(OwnNewestFirst(books, userId, statusFilter), page, pageSize) :: Presentable(b))
      && (r.Err? ==> r.error == ServerError(InternalServerError))
    ensures r.Ok? ==>
      && r.value.items == Slice(OwnNewestFirst(books, userId, statusFilter), page, pageSize)
      && r.value.page == page && r.value.pageSize == pageSize
      && r.value.total == |OwnListingKeys(books, userId, statusFilter)|
      && r.value.totalPages == TotalPages(r.value.total, pageSize)
      && |r.value.items| <= pageSize
      && (Offset(page, pageSize) >= r.value.total ==> r.value.items == [])
      && Descending(r.value.items, CreatedAt)
      && (forall b | b in r.value.items :: b in books.Values && OwnListing(userId, statusFilter, b))
  {
    var v := PagingViolations(page, pageSize);
    if v != [] then Err(ValidationFailed(v))
    else
      var keep := b => OwnListing(userId, statusFilter, b);
      NewestFirstPage(books, keep, page, pageSize);
      Respond(PageOf(OwnNewestFirst(books, userId, statusFilter), page, pageSize))
  }

  /** Without a status filter the caller sees every own book, whatever its status:
      pending and rejected ones too, as long as the caller's books pass `BookResponse`. */
  lemma MyListingsShowEveryStatus(books: map<int, Book>, userId: int, id: int, pageSize: int)
    requires id in books && books[id].sellerId == userId
    requires 1 <= pageSize <= MaxPageSize
    requires forall b | b in books.Values && b.sellerId == userId :: Presentable(b)
    ensures exists page :: (page >= 1 && MyListings(books, userId, None, page, pageSize).Ok?
      && books[id] in MyListings(books, userId, None, page, pageSize).value.items)
  {
    KeptRowOnSomePage(books, x => OwnListing(userId, None, x), id, pageSize);
    var page :| page >= 1 && books[id] in Slice(OwnNewestFirst(books, userId, None), page, pageSize);
    assert PagingViolations(page, pageSize) == [];
    NewestFirstPage(books, x => OwnListing(userId, None, x), page, pageSize);
    var r := MyListings(books, userId, None, page, pageSize);
    assert r.Ok?;
    assert r.value.items == Slice(OwnNewestFirst(books, userId, None), page, pageSize);
  }

  // ---------------------------------------------------------------------------------
  // The caller's saved books: the likes table joined to the books table.

  function LikedAt(l: Like): int {
    l.createdAt
  }

  /** The joined rows: the caller's likes whose book exists. */
  predicate OwnLike(books: map<int, Book>, userId: int, l: Like) {
    l.userId == userId && l.bookId in books
  }

  function OwnLikeKeys(books: map<int, Book>, likes: map<int, Like>, userId: int): (ks: set<int>)
    ensures forall id :: id in ks <==> id in likes && OwnLike(books, userId, likes[id])
  {
    KeysWhere(likes, l => OwnLike(books, userId, l))
  }

  /** The caller's likes, most recent like first. */
  function SavedOrder(books: map<int, Book>, likes: map<int, Like>, userId: int): (r: seq<Like>)
    ensures |r| == |OwnLikeKeys(books, likes, userId)|
    ensures Descending(r, LikedAt)
    ensures forall l :: l in r <==> l in likes.Values && OwnLike(books, userId, l)
  {
    var keep := l => OwnLike(books, userId, l);
    var mine := Where(Rows(likes), keep);
    CountWhere(likes, keep);
    SortKeepsElements(mine, LikedAt);
    SortDescending(mine, LikedAt)
  }

  /** The book of each joined row. */
  function BooksOf(books: map<int, Book>, ls: seq<Like>): (r: seq<Book>)
    requires forall l | l in ls :: l.bookId in books
    ensures |r| == |ls|
    ensures forall k :: 0 <= k < |ls| ==> r[k] == books[ls[k].bookId]
  {
    if ls == [] then [] else [books[ls[0].bookId]] + BooksOf(books, ls[1..])
  }

  /** The books of some joined rows all pass `BookResponse` exactly when the book of
      each row does. */
  lemma PresentableBooksOf(books: map<int, Book>, ls: seq<Like>)
    requires forall l | l in ls :: l.bookId in books
    ensures (forall b | b in BooksOf(books, ls) :: Presentable(b)) <==> (forall l | l in ls :: Presentable(books[l.bookId]))
  {
    var bs := BooksOf(books, ls);
    if forall b | b in bs :: Presentable(b) {
      forall l | l in ls ensures Presentable(books[l.bookId]) {
        BookOfShown(books, ls, l);
      }
    }
    if forall l | l in ls :: Presentable(books[l.bookId]) {
      forall b | b in bs ensures Presentable(b) {
        var k :| 0 <= k < |bs| && bs[k] == b;
        assert ls[k] in ls;
      }
    }
  }

  /** One page of the caller's likes keeps their order and holds only the caller's
      likes of existing books. */
  lemma SavedPage(books: map<int, Book>, likes: map<int, Like>, userId: int, page: int, pageSize: int)
    requires page >= 1 && pageSize >= 1
    ensures var shown := Slice(SavedOrder(books, likes, userId), page, pageSize);
      && Descending(shown, LikedAt)
      && (forall l | l in shown :: l in likes.Values && OwnLike(books, userId, l))
  {
    var ordered := SavedOrder(books, likes, userId);
    SliceKeepsOrder(ordered, LikedAt, page, pageSize);
    var shown := Slice(ordered, page, pageSize);
    forall l | l in shown ensures l in likes.Values && OwnLike(books, userId, l) {
      var k :| 0 <= k < |shown| && shown[k] == l;
      assert l in ordered;
    }
  }

  /** `GET /users/me/saved`. Out-of-range paging is refused; otherwise the books of a page
      of the caller's likes, most recent like first, counted before pagination. There is
      no status filter. A book on that page that fails `BookResponse` turns the answer
      into a 500. */
  function SavedBooks(books: map<int, Book>, likes: map<int, Like>, userId: int,
                      page: int, pageSize: int): (r: Result<BookList>)
    ensures PagingViolations(page, pageSize) != [] ==> r == Err(ValidationFailed(PagingViolations(page, pageSize)))
    ensures PagingViolations(page, pageSize) == [] ==>
      var shown := Slice(SavedOrder(books, likes, userId), page, pageSize);
      && (forall l | l in shown :: l in likes.Values && OwnLike(books, userId, l))
      && (r.Ok? <==> forall l | l in shown :: Presentable(books[l.bookId]))
      && (r.Err? ==> r.error == ServerError(InternalServerError))
    ensures r.Ok? ==>
      var shown := Slice(SavedOrder(books, likes, userId), page, pageSize);
      && r.value.page == page && r.value.pageSize == pageSize
      && r.value.total == |OwnLikeKeys(books, likes, userId)|
      && r.value.totalPages == TotalPages(r.value.total, pageSize)
      && |r.value.items| <= pageSize
      && Descending(shown, LikedAt)
      && (forall l | l in shown :: l in likes.Values && l.userId == userId && l.bookId in books)
      && r.value.items == BooksOf(books, shown)
  {
    var v := PagingViolations(page, pageSize);
    if v != [] then Err(ValidationFailed(v))
    else
      var ordered := SavedOrder(books, likes, userId);
      SavedPage(books, likes, userId, page, pageSize);
      var shown := Slice(ordered, page, pageSize);
      PresentableBooksOf(books, shown);
      Respond(BookList(BooksOf(books, shown), |ordered|, page, pageSize, TotalPages(|ordered|, pageSize)))
  }

  /** The book of every joined row is among the books shown. */
  lemma BookOfShown(books: map<int, Book>, ls: seq<Like>, l: Like)
    requires forall x | x in ls :: x.bookId in books
    requires l in ls
    ensures books[l.bookId] in BooksOf(books, ls)
  {
    var k :| 0 <= k < |ls| && ls[k] == l;
    assert BooksOf(books, ls)[k] == books[l.bookId];
  }

  /** A saved book is on some page of the saved list, whatever its status, as long as
      the books the caller saved pass `BookResponse`. */
  lemma SavedBooksShowEveryStatus(books: map<int, Book>, likes: map<int, Like>, userId: int,
                                  likeId: int, pageSize: int)
    requires likeId in likes && likes[likeId].userId == userId && likes[likeId].bookId in books
    requires 1 <= pageSize <= MaxPageSize
    requires forall l | l in likes.Values && OwnLike(books, userId, l) :: Presentable(books[l.bookId])
    ensures exists page :: (page >= 1 && SavedBooks(books, likes, userId, page, pageSize).Ok?
      && books[likes[likeId].bookId] in SavedBooks(books, likes, userId, page, pageSize).value.items)
  {
    var l := likes[likeId];
    assert l in likes.Values;
    var ordered := SavedOrder(books, likes, userId);
    EveryRowOnSomePage(ordered, l, pageSize);
    var page :| page >= 1 && l in Slice(ordered, page, pageSize);
    var shown := Slice(ordered, page, pageSize);
    SavedPage(books, likes, userId, page, pageSize);
    BookOfShown(books, shown, l);
    assert PagingViolations(page, pageSize) == [];
    var r := SavedBooks(books, likes, userId, page, pageSize);
    assert r.Ok?;
    assert r.value.items == BooksOf(books, shown);
  }
}
