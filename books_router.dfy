/** The read side of the books endpoints and the row patch behind an update: the public
    listing (approved books, optional filters combined with AND, newest first, one
    page), the detail view, and the field-by-field assignment of an update body to a
    book row. The store mutations that use them live in the `Store` module. */
module BooksRouter {
  import opened Common
  import opened Models
  import opened Text
  import opened Tables
  import opened Ordering
  import opened Paging
  import opened BookSchema
  import opened UserSchema

  /** The sort key of the listings. */
  function CreatedAt(b: Book): int {
    b.createdAt
  }

  // ---------------------------------------------------------------------------------
  // Filters of the public listing. A filter whose value is falsy (absent, 0, "") is not
  // applied; a price bound is applied whenever it is present, 0 included. A column that
  // is NULL fails every comparison and every ILIKE.

  predicate CategoryMatches(p: FilterParams, b: Book) {
    TruthyInt(p.categoryId) ==> b.categoryId == p.categoryId
  }

  predicate LanguageMatches(p: FilterParams, b: Book) {
    TruthyInt(p.languageId) ==> b.languageId == p.languageId
  }

  predicate ListingTypeMatches(p: FilterParams, b: Book) {
    p.listingType.Some? ==> b.listingType == p.listingType.value
  }

  predicate MinPriceMatches(p: FilterParams, b: Book) {
    p.minPrice.Some? ==> b.price.Some? && b.price.value >= p.minPrice.value
  }

  predicate MaxPriceMatches(p: FilterParams, b: Book) {
    p.maxPrice.Some? ==> b.price.Some? && b.price.value <= p.maxPrice.value
  }

  predicate AuthorMatches(p: FilterParams, b: Book) {
    TruthyStr(p.author) ==> ContainsIgnoreCase(b.author, p.author.value)
  }

  predicate LocationMatches(p: FilterParams, b: Book) {
    TruthyStr(p.location) ==> b.location.Some? && ContainsIgnoreCase(b.location.value, p.location.value)
  }

  /** The search term matches the title or the author. */
  predicate SearchMatches(p: FilterParams, b: Book) {
    TruthyStr(p.search) ==>
      ContainsIgnoreCase(b.title, p.search.value) || ContainsIgnoreCase(b.author, p.search.value)
  }

  /** The WHERE clause of the public listing: approved, and every applied filter. */
  predicate Listed(p: FilterParams, b: Book) {
    && b.status == Approved
    && CategoryMatches(p, b)
    && LanguageMatches(p, b)
    && ListingTypeMatches(p, b)
    && MinPriceMatches(p, b)
    && MaxPriceMatches(p, b)
    && AuthorMatches(p, b)
    && LocationMatches(p, b)
    && SearchMatches(p, b)
  }

  /** A page of an already ordered result, with the count of the whole result. */
  function PageOf(ordered: seq<Book>, page: int, pageSize: int): BookList
    requires page >= 1 && pageSize >= 1
  {
    BookList(Slice(ordered, page, pageSize), |ordered|, page, pageSize, TotalPages(|ordered|, pageSize))
  }

  /** The answer of a list endpoint: built only when every book on the page passes
      `BookResponse`; a single row that does not makes the whole answer a 500. */
  function Respond(page: BookList): (r: Result<BookList>)
    ensures r.Ok? <==> forall b | b in page.items :: Presentable(b)
    ensures r.Ok? ==> r.value == page
    ensures r.Err? ==> r.error == ServerError(InternalServerError)
  {
    if forall b | b in page.items :: Presentable(b) then Ok(page)
    else Err(ServerError(InternalServerError))
  }

  /** The rows of the listing before pagination, newest first. */
  function ListedNewestFirst(books: map<int, Book>, p: FilterParams): seq<Book> {
    SortDescending(Where(Rows(books), b => Listed(p, b)), CreatedAt)
  }

  /** What every listing query promises, for any row test `keep`: the result counts the
      kept rows of the table, and a page of it, newest first, holds only kept rows. */
  lemma NewestFirstPage(books: map<int, Book>, keep: Book -> bool, page: int, pageSize: int)
    requires page >= 1 && pageSize >= 1
    ensures var ordered := SortDescending(Where(Rows(books), keep), CreatedAt);
      var items := Slice(ordered, page, pageSize);
      && |ordered| == |KeysWhere(books, keep)|
      && Descending(items, CreatedAt)
      && (forall b | b in items :: b in books.Values && keep(b))
  {
    var matching := Where(Rows(books), keep);
    var ordered := SortDescending(matching, CreatedAt);
    CountWhere(books, keep);
    SortKeepsElements(matching, CreatedAt);
    SliceKeepsOrder(ordered, CreatedAt, page, pageSize);
    var items := Slice(ordered, page, pageSize);
    forall b | b in items ensures b in books.Values && keep(b) {
      var k :| 0 <= k < |items| && items[k] == b;
      assert b in ordered;
    }
  }

  /** A page of the listing holds only listed books of the table. */
  lemma ListedPageRows(books: map<int, Book>, p: FilterParams, page: int, pageSize: int)
    requires page >= 1 && pageSize >= 1
    ensures forall b | b in Slice(ListedNewestFirst(books, p), page, pageSize) :: b in books.Values && Listed(p, b)
  {
    var keep := b => Listed(p, b);
    NewestFirstPage(books, keep, page, pageSize);
  }

  /** The keys of the listed books. */
  function ListedKeys(books: map<int, Book>, p: FilterParams): (ks: set<int>)
    ensures forall id :: id in ks <==> id in books && Listed(p, books[id])
  {
    KeysWhere(books, b => Listed(p, b))
  }

  /** `GET /books`. A bad query string is refused with its violations. Otherwise the
      answer is the requested page of the listed books, newest first: it counts every
      listed book, holds at most one page of them and nothing but listed books of the
      table. A book on that page that fails `BookResponse` turns the answer into a 500. */
  function ListBooks(books: map<int, Book>, p: FilterParams): (r: Result<BookList>)
    ensures FilterViolations(p) != [] ==> r == Err(ValidationFailed(FilterViolations(p)))
    ensures FilterViolations(p) == [] ==>
      && (r.Ok? <==> forall b | b in Slice(ListedNewestFirst(books, p), p.page, p.pageSize) :: Presentable(b))
      && (r.Err? ==> r.error == ServerError(InternalServerError))
    ensures r.Ok? ==>
      && r.value.items == Slice(ListedNewestFirst(books, p), p.page, p.pageSize)
      && r.value.page == p.page && r.value.pageSize == p.pageSize
      && r.value.total == |ListedKeys(books, p)|
      && r.value.totalPages == TotalPages(r.value.total, p.pageSize)
      && |r.value.items| <= p.pageSize
      && (Offset(p.page, p.pageSize) >= r.value.total ==> r.value.items == [])
      && Descending(r.value.items, CreatedAt)
      && (forall b | b in r.value.items :: b in books.Values && Listed(p, b))
  {
    var v := FilterViolations(p);
    if v != [] then Err(ValidationFailed(v))
    else
      var keep := b => Listed(p, b);
      NewestFirstPage(books, keep, p.page, p.pageSize);
      Respond(PageOf(ListedNewestFirst(books, p), p.page, p.pageSize))
  }

  /** Every kept row is on some page. */
  lemma KeptRowOnSomePage(books: map<int, Book>, keep: Book -> bool, id: int, pageSize: int)
    requires id in books && keep(books[id]) && pageSize >= 1
    ensures exists page :: (page >= 1 &&
      books[id] in Slice(SortDescending(Where(Rows(books), keep), CreatedAt), page, pageSize))
  {
    var matching := Where(Rows(books), keep);
    assert books[id] in books.Values;
    assert books[id] in matching;
    SortKeepsElements(matching, CreatedAt);
    EveryRowOnSomePage(SortDescending(matching, CreatedAt), books[id], pageSize);
  }

  /** The page number does not change which books are listed or their order. */
  lemma ListingIgnoresPage(books: map<int, Book>, p: FilterParams, page: int)
    ensures ListedNewestFirst(books, p.(page := page)) == ListedNewestFirst(books, p)
  {
    var q := p.(page := page);
    WhereCongruent(Rows(books), x => Listed(q, x), x => Listed(p, x));
  }

  /** When every listed book passes `BookResponse`, every listed book is on some page of
      the listing: the pages together show the whole result. */
  lemma ListingCoversEveryMatch(books: map<int, Book>, p: FilterParams, id: int)
    requires FilterViolations(p) == []
    requires id in books && Listed(p, books[id])
    requires forall b | b in books.Values && Listed(p, b) :: Presentable(b)
    ensures exists page :: (page >= 1 && ListBooks(books, p.(page := page)).Ok?
      && books[id] in ListBooks(books, p.(page := page)).value.items)
  {
    KeptRowOnSomePage(books, x => Listed(p, x), id, p.pageSize);
    var page :| page >= 1 && books[id] in Slice(ListedNewestFirst(books, p), page, p.pageSize);
    ListingIgnoresPage(books, p, page);
    var q := p.(page := page);
    assert FilterViolations(q) == [];
    ListedPageRows(books, p, page, p.pageSize);
    assert forall b | b in Slice(ListedNewestFirst(books, q), page, p.pageSize) :: Presentable(b);
    assert ListBooks(books, q).Ok?;
  }

  /** A listed book that fails `BookResponse` is on some page, and that page answers 500:
      one bad row hides its whole page. */
  lemma UnpresentableRowFailsItsPage(books: map<int, Book>, p: FilterParams, id: int)
    requires FilterViolations(p) == []
    requires id in books && Listed(p, books[id]) && !Presentable(books[id])
    ensures exists page :: (page >= 1
      && ListBooks(books, p.(page := page)) == Err(ServerError(InternalServerError)))
  {
    KeptRowOnSomePage(books, x => Listed(p, x), id, p.pageSize);
    var page :| page >= 1 && books[id] in Slice(ListedNewestFirst(books, p), page, p.pageSize);
    ListingIgnoresPage(books, p, page);
    var q := p.(page := page);
    assert FilterViolations(q) == [];
    assert books[id] in Slice(ListedNewestFirst(books, q), page, p.pageSize);
  }

  /** Filters are combined with AND: a book passes a query exactly when it passes each of
      the query's filters applied alone. */
  lemma FiltersCombineWithAnd(p: FilterParams, b: Book)
    ensures Listed(p, b) <==>
      && Listed(DefaultFilters.(categoryId := p.categoryId), b)
      && Listed(DefaultFilters.(languageId := p.languageId), b)
      && Listed(DefaultFilters.(listingType := p.listingType), b)
      && Listed(DefaultFilters.(minPrice := p.minPrice), b)
      && Listed(DefaultFilters.(maxPrice := p.maxPrice), b)
      && Listed(DefaultFilters.(author := p.author), b)
      && Listed(DefaultFilters.(location := p.location), b)
      && Listed(DefaultFilters.(search := p.search), b)
  {
  }

  /** A falsy category, language, author, location or search value restricts nothing:
      it is the same as leaving the filter out. */
  lemma FalsyFiltersIgnored(p: FilterParams, b: Book)
    ensures Listed(p.(categoryId := Some(0)), b) == Listed(p.(categoryId := None), b)
    ensures Listed(p.(languageId := Some(0)), b) == Listed(p.(languageId := None), b)
    ensures Listed(p.(author := Some("")), b) == Listed(p.(author := None), b)
    ensures Listed(p.(location := Some("")), b) == Listed(p.(location := None), b)
    ensures Listed(p.(search := Some("")), b) == Listed(p.(search := None), b)
  {
  }

  /** Without filters the listing is exactly the approved books. */
  lemma NoFilterListsApproved(p: FilterParams, b: Book)
    requires p.(page := 1, pageSize := 10) == DefaultFilters
    ensures Listed(p, b) <==> b.status == Approved
  {
  }

  /** A price bound, even a bound of 0, hides every book without a price, so free books
      disappear as soon as either bound is given. */
  lemma PriceBoundHidesUnpriced(p: FilterParams, b: Book)
    requires p.minPrice.Some? || p.maxPrice.Some?
    requires b.price.None?
    ensures !Listed(p, b)
  {
  }

  /** Price bounds are inclusive on both ends. */
  lemma PriceBoundsInclusive(p: FilterParams, b: Book, x: real)
    requires b.price == Some(x)
    ensures MinPriceMatches(p.(minPrice := Some(x)), b) && MaxPriceMatches(p.(maxPrice := Some(x)), b)
    ensures !MinPriceMatches(p.(minPrice := Some(x + 1.0)), b)
    ensures !MaxPriceMatches(p.(maxPrice := Some(x - 1.0)), b)
  {
  }

  /** A search term found literally in the title or in the author matches. */
  lemma SearchFindsTitleOrAuthor(p: FilterParams, b: Book, i: int)
    requires TruthyStr(p.search)
    requires OccursAt(b.title, p.search.value, i) || OccursAt(b.author, p.search.value, i)
    ensures SearchMatches(p, b)
  {
    if OccursAt(b.title, p.search.value, i) {
      OccurrenceMatches(b.title, p.search.value, i);
    } else {
      OccurrenceMatches(b.author, p.search.value, i);
    }
  }

  /** A book that is not approved is never listed, whatever the query. */
  lemma UnapprovedNeverListed(p: FilterParams, b: Book)
    requires b.status != Approved
    ensures !Listed(p, b)
  {
  }

  // ---------------------------------------------------------------------------------
  // Detail view.

  /** `GET /books/{id}`: the book whatever its status, its seller's profile, the
      category and language rows it still references, and `is_liked` false. A missing
      seller row, or a book that fails `BookResponse`, makes the answer a 500. */
  function GetBookDetail(books: map<int, Book>, users: map<int, User>,
                         categories: set<int>, languages: set<int>, bookId: int): (r: Result<BookDetail>)
    ensures bookId !in books ==> r == Err(NotFound("Book not found"))
    ensures bookId in books ==>
      (r.Ok? <==> books[bookId].sellerId in users && Presentable(books[bookId]))
    ensures bookId in books && r.Err? ==> r.error == ServerError(InternalServerError)
    ensures r.Ok? ==>
      && r.value.book == books[bookId]
      && r.value.seller == ProfileOf(users[books[bookId].sellerId])
      && !r.value.isLiked
      && (r.value.category.Some? <==> books[bookId].categoryId.Some? && books[bookId].categoryId.value in categories)
      && (r.value.category.Some? ==> r.value.category == books[bookId].categoryId)
      && (r.value.language.Some? <==> books[bookId].languageId.Some? && books[bookId].languageId.value in languages)
      && (r.value.language.Some? ==> r.value.language == books[bookId].languageId)
  {
    if bookId !in books then Err(NotFound("Book not found"))
    else
      var b := books[bookId];
      if b.sellerId !in users || !Presentable(b) then Err(ServerError(InternalServerError))
      else
        var category := if b.categoryId.Some? && b.categoryId.value in categories then b.categoryId else None;
        var language := if b.languageId.Some? && b.languageId.value in languages then b.languageId else None;
        Ok(BookDetail(b, ProfileOf(users[b.sellerId]), category, language, false))
  }

  // ---------------------------------------------------------------------------------
  // Update: the dump of the body assigned to the row, one attribute at a time.

  /** An assignment of SQL NULL to a NOT NULL column. The row accepts it, the commit does
      not. A null image list is not one: the JSON column stores it as JSON null. */
  predicate ClearsRequired(a: BookAssignment) {
    || (a.SetTitle? && a.title.None?)
    || (a.SetAuthor? && a.author.None?)
    || (a.SetListingType? && a.listingType.None?)
    || (a.SetStatus? && a.status.None?)
  }

  /** The body sends null for a NOT NULL column. */
  predicate ClearsRequiredField(u: BookUpdate) {
    || u.title == Set(None) || u.author == Set(None)
    || u.listingType == Set(None) || u.status == Set(None)
  }

  /** `setattr(book, field, value)`. A null for a NOT NULL column leaves the row as it is:
      such an update is refused as a whole at commit (`ClearsRequired`). */
  function Assign(b: Book, a: BookAssignment): Book {
    match a
    case SetTitle(t) => if t.Some? then b.(title := t.value) else b
    case SetAuthor(x) => if x.Some? then b.(author := x.value) else b
    case SetDescription(d) => b.(description := d)
    case SetImages(i) => b.(images := i)
    case SetCategory(c) => b.(categoryId := c)
    case SetLanguage(l) => b.(languageId := l)
    case SetListingType(t) => if t.Some? then b.(listingType := t.value) else b
    case SetPrice(x) => b.(price := x)
    case SetLocation(l) => b.(location := l)
    case SetStatus(s) => if s.Some? then b.(status := s.value) else b
  }

  /** The row after an update, field by field: every supplied field takes the value sent
      (a null only where the column is nullable), every other column keeps its value. */
  function Patched(b: Book, u: BookUpdate): Book {
    b.(
      title := if Given(u.title) then u.title.value.value else b.title,
      author := if Given(u.author) then u.author.value.value else b.author,
      description := if u.description.Set? then u.description.value else b.description,
      images := if u.images.Set? then u.images.value else b.images,
      categoryId := if u.categoryId.Set? then u.categoryId.value else b.categoryId,
      languageId := if u.languageId.Set? then u.languageId.value else b.languageId,
      listingType := if Given(u.listingType) then u.listingType.value.value else b.listingType,
      price := if u.price.Set? then u.price.value else b.price,
      location := if u.location.Set? then u.location.value else b.location,
      status := if Given(u.status) then u.status.value.value else b.status)
  }

  /** The body restricted to its first `k` fields. */
  function Prefix(u: BookUpdate, k: int): BookUpdate {
    BookUpdate(
      if k > 0 then u.title else Unset,
      if k > 1 then u.author else Unset,
      if k > 2 then u.description else Unset,
      if k > 3 then u.images else Unset,
      if k > 4 then u.categoryId else Unset,
      if k > 5 then u.languageId else Unset,
      if k > 6 then u.listingType else Unset,
      if k > 7 then u.price else Unset,
      if k > 8 then u.location else Unset,
      if k > 9 then u.status else Unset)
  }

  /** One step of the loop: the slot's assignment, if the field was sent. */
  function AssignSlot(b: Book, s: Option<BookAssignment>): Book {
    if s.Some? then Assign(b, s.value) else b
  }

  // One lemma per field: slot `k` of the dump, assigned after the first `k` fields.

  lemma StepTitle(b: Book, u: BookUpdate)
    ensures Patched(b, Prefix(u, 1)) == AssignSlot(Patched(b, Prefix(u, 0)), DumpSlots(u)[0])
  {
  }

  lemma StepAuthor(b: Book, u: BookUpdate)
    ensures Patched(b, Prefix(u, 2)) == AssignSlot(Patched(b, Prefix(u, 1)), DumpSlots(u)[1])
  {
  }

  lemma StepDescription(b: Book, u: BookUpdate)
    ensures Patched(b, Prefix(u, 3)) == AssignSlot(Patched(b, Prefix(u, 2)), DumpSlots(u)[2])
  {
  }

  lemma StepImages(b: Book, u: BookUpdate)
    ensures Patched(b, Prefix(u, 4)) == AssignSlot(Patched(b, Prefix(u, 3)), DumpSlots(u)[3])
  {
  }

  lemma StepCategory(b: Book, u: BookUpdate)
    ensures Patched(b, Prefix(u, 5)) == AssignSlot(Patched(b, Prefix(u, 4)), DumpSlots(u)[4])
  {
  }

  lemma StepLanguage(b: Book, u: BookUpdate)
    ensures Patched(b, Prefix(u, 6)) == AssignSlot(Patched(b, Prefix(u, 5)), DumpSlots(u)[5])
  {
  }

  lemma StepListingType(b: Book, u: BookUpdate)
    ensures Patched(b, Prefix(u, 7)) == AssignSlot(Patched(b, Prefix(u, 6)), DumpSlots(u)[6])
  {
  }

  lemma StepPrice(b: Book, u: BookUpdate)
    ensures Patched(b, Prefix(u, 8)) == AssignSlot(Patched(b, Prefix(u, 7)), DumpSlots(u)[7])
  {
  }

  lemma StepLocation(b: Book, u: BookUpdate)
    ensures Patched(b, Prefix(u, 9)) == AssignSlot(Patched(b, Prefix(u, 8)), DumpSlots(u)[8])
  {
  }

  lemma StepStatus(b: Book, u: BookUpdate)
    ensures Patched(b, Prefix(u, 10)) == AssignSlot(Patched(b, Prefix(u, 9)), DumpSlots(u)[9])
  {
  }

  /** Assigning slot `k` after the first `k` fields patches the first `k + 1`. */
  lemma PrefixStep(b: Book, u: BookUpdate, k: int)
    requires 0 <= k < 10
    ensures Patched(b, Prefix(u, k + 1)) == AssignSlot(Patched(b, Prefix(u, k)), DumpSlots(u)[k])
  {
    if k == 0 { StepTitle(b, u); }
    else if k == 1 { StepAuthor(b, u); }
    else if k == 2 { StepDescription(b, u); }
    else if k == 3 { StepImages(b, u); }
    else if k == 4 { StepCategory(b, u); }
    else if k == 5 { StepLanguage(b, u); }
    else if k == 6 { StepListingType(b, u); }
    else if k == 7 { StepPrice(b, u); }
    else if k == 8 { StepLocation(b, u); }
    else { StepStatus(b, u); }
  }

  /** A slot of the dump clears a NOT NULL column exactly when the body sent a null for
      one. */
  lemma SlotsClearIff(u: BookUpdate)
    ensures (exists k :: 0 <= k < 10 && DumpSlots(u)[k].Some? && ClearsRequired(DumpSlots(u)[k].value))
       <==> ClearsRequiredField(u)
  {
    var slots := DumpSlots(u);
    if ClearsRequiredField(u) {
      if u.title == Set(None) { assert slots[0] == Some(SetTitle(None)); }
      else if u.author == Set(None) { assert slots[1] == Some(SetAuthor(None)); }
      else if u.listingType == Set(None) { assert slots[6] == Some(SetListingType(None)); }
      else { assert slots[9] == Some(SetStatus(None)); }
    }
  }

  /** The `setattr` loop of an update over the attributes of `b`. It returns the patched
      row and whether the body cleared a NOT NULL column, which makes the commit fail. */
  method ApplyBookUpdate(b: Book, u: BookUpdate) returns (nb: Book, clears: bool)
    ensures nb == Patched(b, u)
    ensures clears <==> ClearsRequiredField(u)
  {
    var slots := DumpSlots(u);
    nb := b;
    clears := false;
    for i := 0 to 10
      invariant nb == Patched(b, Prefix(u, i))
      invariant clears <==> exists k :: 0 <= k < i && slots[k].Some? && ClearsRequired(slots[k].value)
    {
      PrefixStep(b, u, i);
      if slots[i].Some? {
        nb := Assign(nb, slots[i].value);
        clears := clears || ClearsRequired(slots[i].value);
      }
    }
    assert Prefix(u, 10) == u;
    SlotsClearIff(u);
  }

  /** An update never touches the key, the seller or the timestamps of the row. */
  lemma PatchKeepsIdentity(b: Book, u: BookUpdate)
    ensures var n := Patched(b, u);
      n.id == b.id && n.sellerId == b.sellerId && n.createdAt == b.createdAt && n.updatedAt == b.updatedAt
  {
  }

  /** Leaving every field out changes nothing, and sending the same body twice is the
      same as sending it once. */
  lemma PatchEmptyAndIdempotent(b: Book, u: BookUpdate)
    ensures Patched(b, EmptyUpdate) == b
    ensures Patched(Patched(b, u), u) == Patched(b, u)
  {
  }

  /** A valid update keeps the bounds that every stored listing satisfies. */
  lemma ValidPatchKeepsBounds(b: Book, u: BookUpdate)
    requires BookBounds(b)
    requires UpdateViolations(u) == []
    ensures BookBounds(Patched(b, u))
  {
  }

  /** An update body has no price rule: a sell listing can be patched to no price, and a
      free listing can be given one, and both bodies are valid. */
  lemma PatchCanBreakPriceRule(b: Book)
    ensures var u := EmptyUpdate.(price := Set(None));
      UpdateViolations(u) == [] && !ClearsRequiredField(u)
      && (b.listingType == Sell ==> !PriceMatchesListingType(Patched(b, u)))
    ensures var u := EmptyUpdate.(price := Set(Some(5.0)));
      UpdateViolations(u) == [] && !ClearsRequiredField(u)
      && (b.listingType == Free ==> !PriceMatchesListingType(Patched(b, u)))
    ensures !PriceMatchesListingType(b) ==> !Presentable(b)
  {
  }

  /** A null image list passes validation and the commit, and leaves a row that no
      handler can answer with any more. */
  lemma NullImagesCommitThenFail(b: Book)
    ensures var u := EmptyUpdate.(images := Set(None));
      UpdateViolations(u) == [] && !ClearsRequiredField(u)
      && Patched(b, u).images.None? && !Presentable(Patched(b, u))
  {
  }

  /** `status` is an updatable field: the owner can approve their own listing. */
  lemma OwnerCanApprove(b: Book)
    ensures var u := EmptyUpdate.(status := Set(Some(Approved)));
      UpdateViolations(u) == [] && !ClearsRequiredField(u) && Patched(b, u).status == Approved
  {
  }
}
