/** The request and response shapes of the books endpoints and the validation rules
    their request bodies and query strings go through before a handler runs.

    Validation follows the library's order: every field's own constraints are checked,
    in declaration order, and all their failures are reported together; only when every
    field passed do the model-level rules run, and the first of those to fail is the
    only one reported. */
module BookSchema {
  import opened Common
  import opened Models
  import opened UserSchema
  import opened Paging

  const MaxTitleLength := 255
  const MaxAuthorLength := 255
  const MaxImages := 3

  /** Messages of the custom validators. */
  const TooManyImages := "Maximum 3 images allowed"
  const PriceRequired := "Price is required for sell listings"
  const PriceMustBeNull := "Price must be null for free listings"

  /** The body of a create request, as parsed. */
  datatype BookCreate = BookCreate(
    title: string,
    author: string,
    description: Option<string>,
    images: seq<string>,
    categoryId: Option<int>,
    languageId: Option<int>,
    listingType: ListingType,
    price: Option<real>,
    location: Option<string>)

  /** A length bound on a string field: `min_length` and `max_length`. */
  function LengthViolations(field: string, s: string, lo: nat, hi: nat): (r: seq<Violation>)
    ensures r == [] <==> lo <= |s| <= hi
    ensures |r| <= 1
  {
    if |s| < lo then [Violation(field, "string_too_short")]
    else if |s| > hi then [Violation(field, "string_too_long")]
    else []
  }

  /** `max_length=3` on the image list. */
  function ImagesViolations(images: seq<string>): (r: seq<Violation>)
    ensures r == [] <==> |images| <= MaxImages
  {
    if |images| > MaxImages then [Violation("images", "too_long")] else []
  }

  /** `ge=0` on a price that is present; an absent price is not constrained. */
  function PriceViolations(field: string, price: Option<real>): (r: seq<Violation>)
    ensures r == [] <==> (price.Some? ==> price.value >= 0.0)
  {
    if price.Some? && price.value < 0.0 then [Violation(field, "greater_than_equal")] else []
  }

  /** The custom image validator: it rejects more than three images. */
  function ValidateImages(images: seq<string>): (r: Result<seq<string>>)
    ensures r.Ok? <==> |images| <= MaxImages
    ensures r.Ok? ==> r.value == images
    ensures r.Err? ==> r == Err(ValidationFailed([Violation("images", TooManyImages)]))
  {
    if |images| > MaxImages then Err(ValidationFailed([Violation("images", TooManyImages)]))
    else Ok(images)
  }

  /** The custom image validator runs only on a list that already passed `max_length`,
      and such a list always passes it: its message is never produced. */
  lemma ImagesValidatorNeverRejects(images: seq<string>)
    requires ImagesViolations(images) == []
    ensures ValidateImages(images) == Ok(images)
  {
  }

  /** The bounds every stored listing keeps: title and author of 1 to 255 characters, at
      most three images, a price that is not negative. */
  predicate FieldBounds(title: string, author: string, images: seq<string>, price: Option<real>) {
    && 1 <= |title| <= MaxTitleLength
    && 1 <= |author| <= MaxAuthorLength
    && |images| <= MaxImages
    && (price.Some? ==> price.value >= 0.0)
  }

  /** The same bounds on a stored row, where an image column holding JSON null counts
      as holding no list at all. */
  predicate BookBounds(b: Book) {
    && 1 <= |b.title| <= MaxTitleLength
    && 1 <= |b.author| <= MaxAuthorLength
    && (b.images.Some? ==> |b.images.value| <= MaxImages)
    && (b.price.Some? ==> b.price.value >= 0.0)
  }

  /** The field constraints of a create body, in declaration order. */
  function CreateFieldViolations(c: BookCreate): (r: seq<Violation>)
    ensures r == [] <==> FieldBounds(c.title, c.author, c.images, c.price)
  {
    LengthViolations("title", c.title, 1, MaxTitleLength)
    + LengthViolations("author", c.author, 1, MaxAuthorLength)
    + ImagesViolations(c.images)
    + PriceViolations("price", c.price)
  }

  /** The model-level price rule: it looks at a sell listing without a price first. */
  function CouplingViolations(listingType: ListingType, price: Option<real>): (r: seq<Violation>)
    ensures r == [] <==> ((listingType == Sell) <==> price.Some?)
    ensures listingType == Sell && price.None? ==> r == [Violation("", PriceRequired)]
    ensures listingType == Free && price.Some? ==> r == [Violation("", PriceMustBeNull)]
  {
    if listingType == Sell && price.None? then [Violation("", PriceRequired)]
    else if listingType == Free && price.Some? then [Violation("", PriceMustBeNull)]
    else
      assert listingType == Sell || listingType == Free;
      []
  }

  /** Everything wrong with a create body; the price rule is reported only when every
      field passed its own constraints. */
  function CreateViolations(c: BookCreate): (r: seq<Violation>)
    ensures r == [] <==>
      FieldBounds(c.title, c.author, c.images, c.price) && ((c.listingType == Sell) <==> c.price.Some?)
    ensures CreateFieldViolations(c) != [] ==> r == CreateFieldViolations(c)
  {
    var fields := CreateFieldViolations(c);
    if fields != [] then fields else CouplingViolations(c.listingType, c.price)
  }

  /** What `BookResponse`, a `BookBase`, finds wrong with a stored row when a handler
      turns the row into its answer: an image column holding null instead of a list, or
      anything a create body would be refused for, price rule included. The handler then
      answers 500; the violations themselves are never shown. */
  function ResponseViolations(b: Book): (r: seq<Violation>)
    ensures r == [] <==> b.images.Some? && BookBounds(b) && PriceMatchesListingType(b)
  {
    if b.images.None? then [Violation("images", "list_type")]
    else CreateViolations(BookCreate(b.title, b.author, b.description, b.images.value,
                                     b.categoryId, b.languageId, b.listingType, b.price, b.location))
  }

  /** A stored row that can be answered with. */
  predicate Presentable(b: Book) {
    ResponseViolations(b) == []
  }

  /** A body that is out of bounds is never blamed for its price rule. */
  lemma FieldErrorsHideCouplingErrors(c: BookCreate)
    requires !FieldBounds(c.title, c.author, c.images, c.price)
    ensures forall v | v in CreateViolations(c) :: v.field != ""
  {
  }

  /** The body of an update request. Every field may be left out (`Unset`), sent as
      null (`Set(None)`) or sent with a value; only the value is constrained. */
  datatype BookUpdate = BookUpdate(
    title: Field<Option<string>>,
    author: Field<Option<string>>,
    description: Field<Option<string>>,
    images: Field<Option<seq<string>>>,
    categoryId: Field<Option<int>>,
    languageId: Field<Option<int>>,
    listingType: Field<Option<ListingType>>,
    price: Field<Option<real>>,
    location: Field<Option<string>>,
    status: Field<Option<ListingStatus>>)

  /** An update that leaves every field out. */
  const EmptyUpdate := BookUpdate(Unset, Unset, Unset, Unset, Unset, Unset, Unset, Unset, Unset, Unset)

  /** The value a field was sent with, if any. */
  predicate Given<T>(f: Field<Option<T>>) {
    f.Set? && f.value.Some?
  }

  /** The field constraints of an update body. There is no price rule. */
  function UpdateViolations(u: BookUpdate): (r: seq<Violation>)
    ensures r == [] <==>
      && (Given(u.title) ==> 1 <= |u.title.value.value| <= MaxTitleLength)
      && (Given(u.author) ==> 1 <= |u.author.value.value| <= MaxAuthorLength)
      && (Given(u.images) ==> |u.images.value.value| <= MaxImages)
      && (Given(u.price) ==> u.price.value.value >= 0.0)
  {
    (if Given(u.title) then LengthViolations("title", u.title.value.value, 1, MaxTitleLength) else [])
    + (if Given(u.author) then LengthViolations("author", u.author.value.value, 1, MaxAuthorLength) else [])
    + (if Given(u.images) then ImagesViolations(u.images.value.value) else [])
    + (if Given(u.price) then PriceViolations("price", u.price.value) else [])
  }

  /** One `(field, value)` pair of the dump of an update body. */
  datatype BookAssignment =
    | SetTitle(title: Option<string>)
    | SetAuthor(author: Option<string>)
    | SetDescription(description: Option<string>)
    | SetImages(images: Option<seq<string>>)
    | SetCategory(categoryId: Option<int>)
    | SetLanguage(languageId: Option<int>)
    | SetListingType(listingType: Option<ListingType>)
    | SetPrice(price: Option<real>)
    | SetLocation(location: Option<string>)
    | SetStatus(status: Option<ListingStatus>)

  /** `model_dump(exclude_unset=True)`, as a table of the ten fields in declaration
      order: slot `k` holds the assignment of field `k` when the client sent that field,
      nulls included, and is empty when the field was left out. */
  function DumpSlots(u: BookUpdate): (r: seq<Option<BookAssignment>>)
    ensures |r| == 10
    ensures u == EmptyUpdate ==> forall k :: 0 <= k < 10 ==> r[k].None?
  {
    [ if u.title.Set? then Some(SetTitle(u.title.value)) else None,
      if u.author.Set? then Some(SetAuthor(u.author.value)) else None,
      if u.description.Set? then Some(SetDescription(u.description.value)) else None,
      if u.images.Set? then Some(SetImages(u.images.value)) else None,
      if u.categoryId.Set? then Some(SetCategory(u.categoryId.value)) else None,
      if u.languageId.Set? then Some(SetLanguage(u.languageId.value)) else None,
      if u.listingType.Set? then Some(SetListingType(u.listingType.value)) else None,
      if u.price.Set? then Some(SetPrice(u.price.value)) else None,
      if u.location.Set? then Some(SetLocation(u.location.value)) else None,
      if u.status.Set? then Some(SetStatus(u.status.value)) else None ]
  }

  /** The query string of the public listing. */
  datatype FilterParams = FilterParams(
    categoryId: Option<int>,
    languageId: Option<int>,
    listingType: Option<ListingType>,
    minPrice: Option<real>,
    maxPrice: Option<real>,
    author: Option<string>,
    search: Option<string>,
    location: Option<string>,
    page: int,
    pageSize: int)

  /** The listing with no query string: no filter, first page of ten. */
  const DefaultFilters := FilterParams(None, None, None, None, None, None, None, None, DefaultPage, DefaultPageSize)

  function FilterViolations(p: FilterParams): (r: seq<Violation>)
    ensures r == [] <==>
      && (p.minPrice.Some? ==> p.minPrice.value >= 0.0)
      && (p.maxPrice.Some? ==> p.maxPrice.value >= 0.0)
      && p.page >= 1 && 1 <= p.pageSize <= MaxPageSize
  {
    PriceViolations("min_price", p.minPrice)
    + PriceViolations("max_price", p.maxPrice)
    + (if p.page < 1 then [Violation("page", "greater_than_equal")] else [])
    + (if p.pageSize < 1 then [Violation("page_size", "greater_than_equal")]
       else if p.pageSize > MaxPageSize then [Violation("page_size", "less_than_equal")]
       else [])
  }

  /** The default query string is valid, and its paging is the paging every list
      endpoint defaults to: the first page of ten. */
  lemma DefaultFiltersValid()
    ensures FilterViolations(DefaultFilters) == []
    ensures PagingViolations(DefaultFilters.page, DefaultFilters.pageSize) == []
    ensures Offset(DefaultFilters.page, DefaultFilters.pageSize) == 0 && DefaultFilters.pageSize == 10
  {
  }

  /** One page of a listing. */
  datatype BookList = BookList(items: seq<Book>, total: nat, page: int, pageSize: int, totalPages: nat)

  /** The detail view: the book, its seller, the category and language it still
      references, and whether the viewer liked it. */
  datatype BookDetail = BookDetail(
    book: Book,
    seller: UserProfile,
    category: Option<int>,
    language: Option<int>,
    isLiked: bool)
}
