/** The unit-test fixtures of the analytics service, checked against the model.
    Each fixture is a condition on the store naming only the fields the test
    sets; dates are day numbers, of which only differences matter. */
module LibraryCoreExamples {
  import opened Collections
  import opened Text
  import opened Entities
  import opened LibraryCoreService

  /** Books 1, 2 and 3; user 1 borrowed books 1 and 2, user 2 borrowed books 1 and 3. */
  predicate CoBorrowFixture(store: LibraryStore) {
    && |store.books| == 3 && store.books[0].id == 1 && store.books[1].id == 2 && store.books[2].id == 3
    && store.borrowRecords == [BorrowRecord(1, 1, 1, 0, None), BorrowRecord(2, 2, 1, 0, None),
                               BorrowRecord(3, 1, 2, 0, None), BorrowRecord(4, 3, 2, 0, None)]
  }

  /** In the co-borrow fixture, the records of books other than 1 are the second and
      the fourth. */
  lemma OtherRecords(store: LibraryStore)
    requires CoBorrowFixture(store)
    ensures forall br :: br in store.borrowRecords && br.bookId != 1
                         ==> br == store.borrowRecords[1] || br == store.borrowRecords[3]
  {
  }

  /** In the co-borrow fixture, books 2 and 3 are the ones borrowed alongside book 1. */
  lemma AlongsideBookOne(store: LibraryStore)
    requires CoBorrowFixture(store)
    ensures forall b :: BorrowedAlongside(store, 1, b) <==> b == store.books[1] || b == store.books[2]
  {
    var recs := store.borrowRecords;
    assert HasBorrowed(store, 1, 1) by { assert recs[0] in recs; }
    assert HasBorrowed(store, 2, 1) by { assert recs[2] in recs; }
    FindBookUnique(store.books, 1);
    FindBookUnique(store.books, 2);
    assert BorrowedAlongside(store, 1, store.books[1]) by { assert recs[1] in recs; }
    assert BorrowedAlongside(store, 1, store.books[2]) by { assert recs[3] in recs; }
    OtherRecords(store);
  }

  /** Books without duplicates drawn from two different books are exactly two. */
  lemma TwoBooks(s: seq<Book>, a: Book, b: Book)
    requires NoDuplicates(s) && a != b
    requires forall x :: x in s <==> x == a || x == b
    ensures |s| == 2
  {
    assert (set x | x in s) == {a, b};
    NoDuplicatesCardinality(s);
  }

  /** Book 1 of the co-borrow fixture exists, was borrowed, and one of its
      borrowers' other records resolves to a book. */
  lemma CoBorrowFixtureFacts(store: LibraryStore)
    requires CoBorrowFixture(store)
    ensures BookExists(store.books, 1)
    ensures exists br :: br in store.borrowRecords && br.bookId == 1
    ensures exists br :: br in store.borrowRecords && br.bookId != 1 && HasBorrowed(store, br.userId, 1)
                         && FindBook(store.books, br.bookId).Some?
  {
    var recs := store.borrowRecords;
    assert store.books[0].id == 1;
    assert recs[0] in recs;
    assert FindBook(store.books, 2).Some? by { assert store.books[1].id == 2; }
    assert HasBorrowed(store, 1, 1) by { assert recs[0] in recs; }
    assert recs[1] in recs && recs[1].bookId != 1 && HasBorrowed(store, recs[1].userId, 1)
           && FindBook(store.books, recs[1].bookId).Some?;
  }

  /** Querying book 1 of the co-borrow fixture succeeds ... */
  lemma CoBorrowQuerySucceeds(store: LibraryStore)
    requires CoBorrowFixture(store)
    ensures GetBooksBorrowedWith(store, 1).Ok?
  {
    CoBorrowFixtureFacts(store);
    NoAssociatedBooksWhenNothingAlongside(store, 1);
  }

  /** ... and yields its two companions. */
  lemma BooksBorrowedWithExample(store: LibraryStore)
    requires CoBorrowFixture(store)
    ensures GetBooksBorrowedWith(store, 1).Ok?
    ensures |GetBooksBorrowedWith(store, 1).value| == 2
    ensures store.books[1] in GetBooksBorrowedWith(store, 1).value
    ensures store.books[2] in GetBooksBorrowedWith(store, 1).value
  {
    CoBorrowQuerySucceeds(store);
    AlongsideBookOne(store);
    BooksBorrowedWithExact(store, 1);
    var value := GetBooksBorrowedWith(store, 1).value;
    assert forall b :: b in value <==> b == store.books[1] || b == store.books[2];
    assert store.books[1] != store.books[2];
    TwoBooks(value, store.books[1], store.books[2]);
  }

  lemma OneAsText()
    ensures IntToString(1) == "1"
  {
    assert NatToString(1) == [DigitChar(1)];
  }

  /** The three messages for book 1. */
  lemma BorrowedWithOneTexts()
    ensures BookWithIdNotFoundMessage(1) == "Book with ID 1 not found."
    ensures NoBorrowRecordsMessage(1) == "No borrow records found for book ID 1."
    ensures NoAssociatedBooksMessage(1) == "No associated books found with book ID 1."
  {
    OneAsText();
  }

  /** The three failing fixtures: no such book; a book nobody borrowed; a book
      whose only borrower borrowed nothing else. */
  lemma UnknownBookExample(store: LibraryStore)
    requires store.books == []
    ensures GetBooksBorrowedWith(store, 1) == NotFound("Book with ID 1 not found.")
  {
    assert GetBooksBorrowedWith(store, 1) == NotFound(BookWithIdNotFoundMessage(1));
    BorrowedWithOneTexts();
  }

  lemma NeverBorrowedExample(store: LibraryStore)
    requires |store.books| == 1 && store.books[0].id == 1 && store.borrowRecords == []
    ensures GetBooksBorrowedWith(store, 1) == NotFound("No borrow records found for book ID 1.")
  {
    assert BookExists(store.books, 1);
    assert GetBooksBorrowedWith(store, 1) == NotFound(NoBorrowRecordsMessage(1));
    BorrowedWithOneTexts();
  }

  /** The only record of book 1 is its borrower's only record. */
  lemma NothingAlongsideQuery(store: LibraryStore)
    requires |store.books| == 2 && store.books[0].id == 1 && store.books[1].id == 2
    requires store.borrowRecords == [BorrowRecord(1, 1, 1, 0, None)]
    ensures GetBooksBorrowedWith(store, 1) == NotFound(NoAssociatedBooksMessage(1))
  {
    assert BookExists(store.books, 1);
    assert store.borrowRecords[0] in store.borrowRecords;
    NoAssociatedBooksWhenNothingAlongside(store, 1);
  }

  lemma NothingAlongsideExample(store: LibraryStore)
    requires |store.books| == 2 && store.books[0].id == 1 && store.books[1].id == 2
    requires store.borrowRecords == [BorrowRecord(1, 1, 1, 0, None)]
    ensures GetBooksBorrowedWith(store, 1) == NotFound("No associated books found with book ID 1.")
  {
    NothingAlongsideQuery(store);
    BorrowedWithOneTexts();
  }

  /** A record with the given id borrowed on `borrowDay` and returned on `returnDay`,
      of a single book with the given id and page count. */
  predicate SingleLoanFixture(store: LibraryStore, recordId: int, bookId: int, pages: int, borrowDay: int, returnDay: Option<int>) {
    && |store.books| == 1 && store.books[0].id == bookId && store.books[0].pages == pages
    && store.borrowRecords == [BorrowRecord(recordId, bookId, 0, borrowDay, returnDay)]
  }

  /** 150 pages from the 1st to the 6th of a month: six days, 25 pages a day. */
  lemma ReadingRateExample(store: LibraryStore)
    requires SingleLoanFixture(store, 1, 1, 150, 0, Some(5))
    ensures EstimateReadingRate(store, 1) == Ok(25.0)
  {
    assert PagesPerDay(150, 6) == 25.0;
  }

  /** 900 pages from the 1st to the 10th: 90 pages a day. */
  lemma TenDayReadingRateExample(store: LibraryStore)
    requires SingleLoanFixture(store, 1, 1, 900, 0, Some(9))
    ensures EstimateReadingRate(store, 1) == Ok(90.0)
  {
    assert PagesPerDay(900, 10) == 90.0;
  }

  /** A book returned on the day it was borrowed counts as one day of reading. */
  lemma SameDayReadingRateExample(store: LibraryStore)
    requires SingleLoanFixture(store, 1, 1, 120, 7, Some(7))
    ensures EstimateReadingRate(store, 1) == Ok(120.0)
  {
    assert PagesPerDay(120, 1) == 120.0;
  }

  /** Returned the day before it was borrowed: zero days, rejected. */
  lemma ReturnBeforeBorrowExample(store: LibraryStore)
    requires SingleLoanFixture(store, 2, 2, 100, 1, Some(0))
    ensures EstimateReadingRate(store, 2) == InvalidArgument("Return date must be after borrow date.")
  {
  }

  /** A loan still out has no rate. */
  lemma NotReturnedExample(store: LibraryStore)
    requires SingleLoanFixture(store, 3, 3, 100, 0, None)
    ensures EstimateReadingRate(store, 3) == InvalidArgument("Return date is required.")
  {
  }

  /** Five copies, two of the three loans still out: two borrowed, three available. */
  lemma AvailabilityExample(store: LibraryStore)
    requires |store.books| == 1 && store.books[0].id == 1 && store.books[0].totalCopies == 5
    requires store.borrowRecords == [BorrowRecord(1, 1, 1, 0, None), BorrowRecord(2, 1, 1, 0, Some(1)),
                                     BorrowRecord(3, 1, 1, 0, None)]
    ensures GetBookAvailability(store, 1) == Ok(Availability(2, 3))
  {
    var recs := store.borrowRecords;
    var p := (br: BorrowRecord) => br.bookId == 1 && br.returnDate.None?;
    assert recs[..2][..1] == [recs[0]];
    assert recs[..2] == [recs[0], recs[1]];
    assert Count(recs[..2], p) == 1;
    assert OutstandingCount(store, 1) == 2;
    FindBookUnique(store.books, 0);
  }

  /** No loans: nothing borrowed, every copy available. */
  lemma NoLoansAvailabilityExample(store: LibraryStore)
    requires |store.books| == 1 && store.books[0].id == 2 && store.books[0].totalCopies == 3
    requires store.borrowRecords == []
    ensures GetBookAvailability(store, 2) == Ok(Availability(0, 3))
  {
    FindBookUnique(store.books, 0);
  }
}
