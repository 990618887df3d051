/** `Book` and `Review` rows of book_app/models.py:129-247: the one derived
    predicate on a book, `is_long_book`, and the check and uniqueness
    constraints the database enforces on both tables. Decimal and float
    columns are held as `real`; only comparisons are made on them. */
module Books {
  import opened Wrappers

  /** The language codes a book may carry. */
  const LanguageCodes: seq<string> := ["EN", "FR", "ES", "DE", "ZH", "JA", "AR"]

  /** The length at which a book counts as long. */
  const LongBookPages: nat := 500

  /** A persisted book: the columns the model's rules read. Nullable columns
      are options. */
  datatype Book = Book(
    title: string,
    author: string,
    isbn: string,
    pageCount: Option<nat>,
    price: Option<real>,
    rating: Option<real>,
    language: string)

  /** A review row; `rating` is a small non-negative integer column. */
  datatype Review = Review(book: nat, reviewerName: string, rating: nat)

  /** `is_long_book`: a present, non-zero page count above 500. A page count
      of 0 is falsy, and so is a missing one. */
  function IsLongBook(b: Book): (r: bool)
    ensures r <==> b.pageCount.Some? && b.pageCount.value > LongBookPages
    ensures r ==> PageCountPositive(b)
  {
    match b.pageCount
    case None => false
    case Some(n) => n != 0 && n > LongBookPages
  }

  predicate IsAsciiDigit(c: char)
  {
    '0' <= c <= '9'
  }

  /** `isbn_length`: the ISBN is exactly thirteen digits. */
  predicate IsbnWellFormed(b: Book)
  {
    |b.isbn| == 13 && forall i :: 0 <= i < |b.isbn| ==> IsAsciiDigit(b.isbn[i])
  }

  /** `rating_range`: a NULL rating passes the check, as every SQL check
      whose condition is NULL does. */
  predicate RatingInRange(b: Book)
  {
    b.rating.None? || 0.0 <= b.rating.value <= 5.0
  }

  /** `price_non_negative`, with the same NULL rule. */
  predicate PriceNonNegative(b: Book)
  {
    b.price.None? || 0.0 <= b.price.value
  }

  /** `page_count_positive`: at least one page, or no page count. */
  predicate PageCountPositive(b: Book)
  {
    b.pageCount.None? || 1 <= b.pageCount.value
  }

  /** The `language` field's choices (a field validation, not a database
      check). */
  predicate LanguageAllowed(b: Book)
  {
    b.language in LanguageCodes
  }

  /** Every row-level check constraint of the `book` table. */
  predicate BookChecks(b: Book)
  {
    IsbnWellFormed(b) && RatingInRange(b) && PriceNonNegative(b) && PageCountPositive(b)
  }

  /** `unique_book` and the unique `isbn` column over the whole table. */
  predicate BookTableUnique(books: seq<Book>)
  {
    forall i, j :: 0 <= i < |books| && 0 <= j < |books| && i != j ==>
      (books[i].title, books[i].author) != (books[j].title, books[j].author) &&
      books[i].isbn != books[j].isbn
  }

  /** `review_rating_range`, the same range as the field's validators. */
  predicate ReviewRatingInRange(r: Review)
  {
    1 <= r.rating <= 5
  }

  /** Adding a book keeps the table's uniqueness exactly when the new book
      shares neither its (title, author) pair nor its ISBN with a stored
      book. */
  lemma {:induction false} AppendKeepsUnique(books: seq<Book>, b: Book)
    requires BookTableUnique(books)
    ensures BookTableUnique(books + [b]) <==>
              forall i :: 0 <= i < |books| ==>
                (books[i].title, books[i].author) != (b.title, b.author) && books[i].isbn != b.isbn
  {
    var t := books + [b];
    if forall i :: 0 <= i < |books| ==>
         (books[i].title, books[i].author) != (b.title, b.author) && books[i].isbn != b.isbn {
      forall i, j | 0 <= i < |t| && 0 <= j < |t| && i != j
        ensures (t[i].title, t[i].author) != (t[j].title, t[j].author) && t[i].isbn != t[j].isbn
      {
        if i < |books| && j < |books| {
          assert t[i] == books[i] && t[j] == books[j];
        } else if i < |books| {
          assert t[i] == books[i] && t[j] == b;
        } else {
          assert t[i] == b && t[j] == books[j];
        }
      }
    } else {
      var i :| 0 <= i < |books| &&
        !((books[i].title, books[i].author) != (b.title, b.author) && books[i].isbn != b.isbn);
      assert t[i] == books[i] && t[|books|] == b;
    }
  }
}
