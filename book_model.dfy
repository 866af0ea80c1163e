/**
 * The Book record: column constraints, defaults and the `beforeValidate`
 * hook that clamps `available_copies` to `total_copies` on every save.
 */
module BookModel {
  import opened Wrappers
  import opened ErrorUtil
  import opened Tables

  datatype BookStatus = Available | Borrowed | Reserved | Maintenance

  /** The enum label stored in the database. */
  function StatusName(s: BookStatus): string {
    match s
    case Available => "available"
    case Borrowed => "borrowed"
    case Reserved => "reserved"
    case Maintenance => "maintenance"
  }

  /** The status whose label is `s`, if `s` is one of the four labels. */
  function ParseStatus(s: string): (r: Option<BookStatus>)
    ensures r.Some? ==> StatusName(r.value) == s
    ensures r.None? ==> forall t :: StatusName(t) != s
  {
    if s == "available" then Some(Available)
    else if s == "borrowed" then Some(Borrowed)
    else if s == "reserved" then Some(Reserved)
    else if s == "maintenance" then Some(Maintenance)
    else None
  }

  datatype Book = Book(
    id: Id,
    isbn: string,
    title: string,
    author: string,
    category: string,
    status: BookStatus,
    totalCopies: int,
    availableCopies: int)

  function BookKey(b: Book): Id { b.id }
  function BookIsbn(b: Book): Id { b.isbn }

  const IsbnMinLength := 10
  const IsbnMaxLength := 13
  const DefaultStatus := Available
  const DefaultTotalCopies := 1
  const DefaultAvailableCopies := 1

  /** What the column validators accept: `len: [10, 13]` on isbn, `min: 1` and `min: 0` on the counters. */
  predicate Valid(b: Book) {
    IsbnMinLength <= |b.isbn| <= IsbnMaxLength && b.totalCopies >= 1 && b.availableCopies >= 0
  }

  /** The copy counters are consistent: `0 <= available_copies <= total_copies`. */
  predicate WithinBounds(b: Book) {
    0 <= b.availableCopies <= b.totalCopies
  }

  /** The `beforeValidate` hook: more available copies than total copies are cut down to the total. */
  function BeforeValidate(b: Book): (r: Book)
    ensures r == b.(availableCopies := r.availableCopies)
    ensures r.availableCopies <= r.totalCopies
    ensures r.availableCopies == b.availableCopies || r.availableCopies == b.totalCopies
    ensures b.availableCopies <= b.totalCopies ==> r == b
  {
    if b.availableCopies > b.totalCopies then b.(availableCopies := b.totalCopies) else b
  }

  /** Running the hook a second time changes nothing. */
  lemma BeforeValidateIdempotent(b: Book)
    ensures BeforeValidate(BeforeValidate(b)) == BeforeValidate(b)
  {
  }

  function IsbnViolations(b: Book): seq<ErrorItem> {
    if IsbnMinLength <= |b.isbn| <= IsbnMaxLength then [] else [ValidatorViolation("len", "isbn")]
  }

  function CopyViolations(b: Book): seq<ErrorItem> {
    (if b.totalCopies >= 1 then [] else [ValidatorViolation("min", "total_copies")]) +
    (if b.availableCopies >= 0 then [] else [ValidatorViolation("min", "available_copies")])
  }

  /** The items of the validation error for `b`, in attribute order. */
  function Violations(b: Book): (r: seq<ErrorItem>)
    ensures r == [] <==> Valid(b)
  {
    IsbnViolations(b) + CopyViolations(b)
  }

  /** `save()`: the hook, then the validators; the stored record is the hooked one. */
  function Save(b: Book): (r: Result<Book>)
    ensures r.Ok? <==> Valid(BeforeValidate(b))
    ensures r.Ok? ==> r.value == BeforeValidate(b)
    ensures r.Err? ==> r.error.name == ValidationErrorName
  {
    var hooked := BeforeValidate(b);
    var items := Violations(hooked);
    if items == [] then Ok(hooked) else Err(ValidationError(items))
  }

  /** Whatever a save lets through satisfies `0 <= available_copies <= total_copies`. */
  lemma SaveEstablishesBounds(b: Book)
    requires Save(b).Ok?
    ensures WithinBounds(Save(b).value) && Valid(Save(b).value)
  {
  }

  /** The attributes a caller supplies to `Book.create` or `book.update`; `None` is an absent key. */
  datatype BookInput = BookInput(
    isbn: Option<string>,
    title: Option<string>,
    author: Option<string>,
    category: Option<string>,
    status: Option<BookStatus>,
    totalCopies: Option<int>,
    availableCopies: Option<int>)

  function NotNullViolations(input: BookInput): seq<ErrorItem> {
    (if input.isbn.None? then [NotNullViolation("Book", "isbn")] else []) +
    (if input.title.None? then [NotNullViolation("Book", "title")] else []) +
    (if input.author.None? then [NotNullViolation("Book", "author")] else []) +
    (if input.category.None? then [NotNullViolation("Book", "category")] else [])
  }

  /** The instance `Book.build` makes: absent attributes take their defaults. */
  function Build(id: Id, input: BookInput): Book {
    Book(id, input.isbn.GetOr(""), input.title.GetOr(""), input.author.GetOr(""), input.category.GetOr(""),
         input.status.GetOr(DefaultStatus),
         input.totalCopies.GetOr(DefaultTotalCopies),
         input.availableCopies.GetOr(DefaultAvailableCopies))
  }

  /**
   * `Book.create(data)` before the INSERT: defaults, the hook, then the
   * not-null checks and the validators (an absent isbn is not length-checked).
   */
  function Create(id: Id, input: BookInput): (r: Result<Book>)
    ensures r.Ok? <==> NotNullViolations(input) == [] && Valid(BeforeValidate(Build(id, input)))
    ensures r.Ok? ==> r.value == BeforeValidate(Build(id, input))
    ensures r.Err? ==> r.error.name == ValidationErrorName
  {
    var hooked := BeforeValidate(Build(id, input));
    var items := NotNullViolations(input) +
      (if input.isbn.Some? then IsbnViolations(hooked) else []) + CopyViolations(hooked);
    if items == [] then Ok(hooked) else Err(ValidationError(items))
  }

  /** A created book has the supplied attributes, the defaults for absent ones, and clamped availability. */
  lemma CreateDefaults(id: Id, input: BookInput)
    requires Create(id, input).Ok?
    ensures var b := Create(id, input).value;
      && b.id == id && b.isbn == input.isbn.value && b.title == input.title.value
      && b.status == input.status.GetOr(Available)
      && b.totalCopies == input.totalCopies.GetOr(1) >= 1
      && b.availableCopies == (if input.availableCopies.GetOr(1) > b.totalCopies then b.totalCopies else input.availableCopies.GetOr(1))
      && WithinBounds(b)
  {
  }

  /** `instance.set(data)`: supplied attributes replace the stored ones; the key is never assigned. */
  function Assign(b: Book, data: BookInput): (r: Book)
    ensures r.id == b.id
    ensures data == BookInput(None, None, None, None, None, None, None) ==> r == b
  {
    b.(isbn := data.isbn.GetOr(b.isbn), title := data.title.GetOr(b.title),
       author := data.author.GetOr(b.author), category := data.category.GetOr(b.category),
       status := data.status.GetOr(b.status),
       totalCopies := data.totalCopies.GetOr(b.totalCopies),
       availableCopies := data.availableCopies.GetOr(b.availableCopies))
  }
}
