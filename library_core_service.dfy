/** The library analytics service: six read-only queries over a store snapshot.
    Each query either yields a value or fails with a NotFound or InvalidArgument
    status whose message says which check failed. */
module LibraryCoreService {
  import opened Collections
  import opened Ranking
  import opened Text
  import opened Entities

  /** A query's outcome: a value, or the gRPC status the service would raise. */
  datatype Result<T> = Ok(value: T) | NotFound(message: string) | InvalidArgument(message: string)

  /** Borrowed and available copies of one book. */
  datatype Availability = Availability(borrowed: int, available: int)

  /** How many entries the two ranking queries keep. */
  const TopCount: nat := 10

  // ---------------------------------------------------------------------------
  // Counts the queries rank and report
  // ---------------------------------------------------------------------------

  /** Number of borrow records of a book, returned or not (`b.BorrowRecords.Count`). */
  function BorrowCount(store: LibraryStore, bookId: int): (n: nat)
    ensures n <= |store.borrowRecords|
    ensures n == 0 <==> forall i :: 0 <= i < |store.borrowRecords| ==> store.borrowRecords[i].bookId != bookId
  {
    Count(store.borrowRecords, (br: BorrowRecord) => br.bookId == bookId)
  }

  lemma BorrowCountIsRecordCount(store: LibraryStore, bookId: int)
    ensures BorrowCount(store, bookId)
            == |set i | 0 <= i < |store.borrowRecords| && store.borrowRecords[i].bookId == bookId|
  {
    var p := (br: BorrowRecord) => br.bookId == bookId;
    CountIsMatchingSize(store.borrowRecords, p);
    assert Matching(store.borrowRecords, p)
        == set i | 0 <= i < |store.borrowRecords| && store.borrowRecords[i].bookId == bookId;
  }

  /** Number of a book's records with no return date: the copies still out. */
  function OutstandingCount(store: LibraryStore, bookId: int): (n: nat)
    ensures n == 0 <==> forall i :: 0 <= i < |store.borrowRecords| ==>
                          store.borrowRecords[i].bookId != bookId || store.borrowRecords[i].returnDate.Some?
  {
    Count(store.borrowRecords, (br: BorrowRecord) => br.bookId == bookId && br.returnDate.None?)
  }

  lemma OutstandingCountIsUnreturnedRecords(store: LibraryStore, bookId: int)
    ensures OutstandingCount(store, bookId)
            == |set i | 0 <= i < |store.borrowRecords| && store.borrowRecords[i].bookId == bookId
                                                        && store.borrowRecords[i].returnDate.None?|
    ensures OutstandingCount(store, bookId) <= BorrowCount(store, bookId)
  {
    var p := (br: BorrowRecord) => br.bookId == bookId && br.returnDate.None?;
    CountIsMatchingSize(store.borrowRecords, p);
    assert Matching(store.borrowRecords, p)
        == set i | 0 <= i < |store.borrowRecords| && store.borrowRecords[i].bookId == bookId
                                                  && store.borrowRecords[i].returnDate.None?;
    CountMonotone(store.borrowRecords, p, (br: BorrowRecord) => br.bookId == bookId);
  }

  /** The ranking key of the most-borrowed query. */
  function ByBorrowCount(store: LibraryStore): Book -> int {
    (b: Book) => BorrowCount(store, b.id)
  }

  /** The user has at least one record borrowed within [start, end]. */
  predicate BorrowedInRange(store: LibraryStore, userId: int, start: int, end: int) {
    exists br | br in store.borrowRecords :: br.userId == userId && InRange(br.borrowDate, start, end)
  }

  /** Number of a user's records whose borrow date lies in [start, end]. */
  function InRangeCount(store: LibraryStore, userId: int, start: int, end: int): (n: nat)
    ensures n > 0 <==> BorrowedInRange(store, userId, start, end)
  {
    Count(store.borrowRecords, (br: BorrowRecord) => br.userId == userId && InRange(br.borrowDate, start, end))
  }

  /** The filter and the ranking key of the top-borrowers query. */
  function InWindow(store: LibraryStore, start: int, end: int): User -> bool {
    (u: User) => BorrowedInRange(store, u.id, start, end)
  }

  function ByWindowCount(store: LibraryStore, start: int, end: int): User -> int {
    (u: User) => InRangeCount(store, u.id, start, end)
  }

  lemma InRangeCountIsWindowRecords(store: LibraryStore, userId: int, start: int, end: int)
    ensures InRangeCount(store, userId, start, end)
            == |set i | 0 <= i < |store.borrowRecords| && store.borrowRecords[i].userId == userId
                                                        && InRange(store.borrowRecords[i].borrowDate, start, end)|
  {
    var p := (br: BorrowRecord) => br.userId == userId && InRange(br.borrowDate, start, end);
    CountIsMatchingSize(store.borrowRecords, p);
    assert Matching(store.borrowRecords, p)
        == set i | 0 <= i < |store.borrowRecords| && store.borrowRecords[i].userId == userId
                                                  && InRange(store.borrowRecords[i].borrowDate, start, end);
  }

  // ---------------------------------------------------------------------------
  // GetMostBorrowedBooksAsync
  // ---------------------------------------------------------------------------

  /** The ten books with the most borrow records, most borrowed first; never fails. */
  function GetMostBorrowedBooks(store: LibraryStore): (r: seq<Book>)
    ensures |r| == Min(TopCount, |store.books|)
    ensures forall i, j :: 0 <= i < j < |r| ==> BorrowCount(store, r[i].id) >= BorrowCount(store, r[j].id)
  {
    Top(store.books, ByBorrowCount(store), TopCount)
  }

  /** The ranked books come from the store, and no book left out was borrowed
      more often than one kept. */
  lemma MostBorrowedBooksAreTheTop(store: LibraryStore)
    ensures multiset(GetMostBorrowedBooks(store)) <= multiset(store.books)
    ensures |store.books| <= TopCount ==> multiset(GetMostBorrowedBooks(store)) == multiset(store.books)
    ensures forall b, i :: b in store.books && b !in GetMostBorrowedBooks(store) && 0 <= i < |GetMostBorrowedBooks(store)|
                           ==> BorrowCount(store, b.id) <= BorrowCount(store, GetMostBorrowedBooks(store)[i].id)
  {
    var r := GetMostBorrowedBooks(store);
    TopOutranksRest(store.books, ByBorrowCount(store), TopCount);
    forall b, i | b in store.books && b !in r && 0 <= i < |r|
      ensures BorrowCount(store, b.id) <= BorrowCount(store, r[i].id)
    {
      assert ByBorrowCount(store)(b) <= ByBorrowCount(store)(r[i]);
    }
  }

  // ---------------------------------------------------------------------------
  // GetBookAvailabilityAsync
  // ---------------------------------------------------------------------------

  const BookNotFoundMessage := "Book not found."

  /** Copies out and copies left of a book; the difference is not clamped at zero. */
  function GetBookAvailability(store: LibraryStore, bookId: int): (r: Result<Availability>)
    ensures r == NotFound(BookNotFoundMessage) <==> !BookExists(store.books, bookId)
    ensures !r.InvalidArgument?
    ensures r.NotFound? ==> r == NotFound(BookNotFoundMessage)
    ensures r.Ok? ==> r.value.borrowed == |set i | 0 <= i < |store.borrowRecords|
                                                  && store.borrowRecords[i].bookId == bookId
                                                  && store.borrowRecords[i].returnDate.None?|
    ensures r.Ok? ==> exists b :: b in store.books && b.id == bookId
                                  && r.value.available == b.totalCopies - r.value.borrowed
  {
    match FindBook(store.books, bookId)
    case None => NotFound(BookNotFoundMessage)
    case Some(book) =>
      var borrowed := OutstandingCount(store, bookId);
      OutstandingCountIsUnreturnedRecords(store, bookId);
      Ok(Availability(borrowed, book.totalCopies - borrowed))
  }

  // ---------------------------------------------------------------------------
  // GetTopBorrowersAsync
  // ---------------------------------------------------------------------------

  const NoTopBorrowersMessage := "No top borrowers found in the given date range."

  /** Up to ten users with a record borrowed in [start, end], most such records first;
      NotFound when no user has one. */
  function GetTopBorrowers(store: LibraryStore, start: int, end: int): (r: Result<seq<User>>)
    ensures r == NotFound(NoTopBorrowersMessage)
            <==> forall u :: u in store.users ==> !BorrowedInRange(store, u.id, start, end)
    ensures !r.InvalidArgument?
    ensures r.NotFound? ==> r == NotFound(NoTopBorrowersMessage)
    ensures r.Ok? ==> 0 < |r.value| <= TopCount
    ensures r.Ok? ==> (forall i, j :: 0 <= i < j < |r.value| ==>
                         InRangeCount(store, r.value[i].id, start, end) >= InRangeCount(store, r.value[j].id, start, end))
  {
    RankedBorrowersEmpty(store, start, end);
    RankedBorrowersByCount(store, start, end);
    var ranked := RankBorrowers(store, start, end);
    if ranked == [] then NotFound(NoTopBorrowersMessage) else Ok(ranked)
  }

  /** Every user returned is a user of the store with a record borrowed in the window. */
  lemma TopBorrowersBorrowedInRange(store: LibraryStore, start: int, end: int)
    ensures GetTopBorrowers(store, start, end).Ok? ==>
              multiset(GetTopBorrowers(store, start, end).value) <= multiset(store.users)
              && forall u :: u in GetTopBorrowers(store, start, end).value ==> BorrowedInRange(store, u.id, start, end)
  {
    TopOfFilteredPasses(store.users, InWindow(store, start, end), ByWindowCount(store, start, end), TopCount);
  }

  /** The ranked borrowers: users with an in-window record, most such records first, at most ten. */
  function RankBorrowers(store: LibraryStore, start: int, end: int): (r: seq<User>)
    ensures |r| <= TopCount
    ensures forall u :: u in r ==> u in store.users && InWindow(store, start, end)(u)
    ensures RankedBy(r, ByWindowCount(store, start, end))
  {
    TopOfFilteredPasses(store.users, InWindow(store, start, end), ByWindowCount(store, start, end), TopCount);
    Top(Filter(store.users, InWindow(store, start, end)), ByWindowCount(store, start, end), TopCount)
  }

  /** The ranking is empty exactly when no stored user borrowed in the window. */
  lemma RankedBorrowersEmpty(store: LibraryStore, start: int, end: int)
    ensures RankBorrowers(store, start, end) == []
            <==> forall u :: u in store.users ==> !BorrowedInRange(store, u.id, start, end)
  {
    var r := RankBorrowers(store, start, end);
    var inWindow := InWindow(store, start, end);
    var f := Filter(store.users, inWindow);
    assert r == Top(f, ByWindowCount(store, start, end), TopCount);
    assert r == [] <==> f == [];
    assert f == [] <==> forall u :: u in store.users ==> !inWindow(u);
  }

  /** The ranking orders users by their in-window record counts. */
  lemma RankedBorrowersByCount(store: LibraryStore, start: int, end: int)
    ensures var r := RankBorrowers(store, start, end);
            forall i, j :: 0 <= i < j < |r| ==>
              InRangeCount(store, r[i].id, start, end) >= InRangeCount(store, r[j].id, start, end)
  {
    var r := RankBorrowers(store, start, end);
    var key := ByWindowCount(store, start, end);
    forall i, j | 0 <= i < j < |r|
      ensures InRangeCount(store, r[i].id, start, end) >= InRangeCount(store, r[j].id, start, end)
    {
      assert key(r[i]) >= key(r[j]);
    }
  }

  /** Every user left out of the ranking has at most as many in-window records as
      every ranked user. */
  lemma RankedBorrowersOutrankTheRest(store: LibraryStore, start: int, end: int)
    ensures var r := RankBorrowers(store, start, end);
            forall u, i :: u in store.users && u !in r && 0 <= i < |r|
                           ==> InRangeCount(store, u.id, start, end) <= InRangeCount(store, r[i].id, start, end)
  {
    var r := RankBorrowers(store, start, end);
    var key := ByWindowCount(store, start, end);
    assert forall x :: !InWindow(store, start, end)(x) ==> key(x) == 0;
    TopOfFilteredOutranksRest(store.users, InWindow(store, start, end), key, TopCount);
    forall u, i | u in store.users && u !in r && 0 <= i < |r|
      ensures InRangeCount(store, u.id, start, end) <= InRangeCount(store, r[i].id, start, end)
    {
      assert key(u) <= key(r[i]);
    }
  }

  /** No user left out has more in-window records than a user returned. */
  lemma TopBorrowersOutrankTheRest(store: LibraryStore, start: int, end: int)
    ensures GetTopBorrowers(store, start, end).Ok? ==>
              var top := GetTopBorrowers(store, start, end).value;
              forall u, i :: u in store.users && u !in top && 0 <= i < |top|
                             ==> InRangeCount(store, u.id, start, end) <= InRangeCount(store, top[i].id, start, end)
  {
    if GetTopBorrowers(store, start, end).Ok? {
      assert GetTopBorrowers(store, start, end).value == RankBorrowers(store, start, end);
      RankedBorrowersOutrankTheRest(store, start, end);
    }
  }

  /** When fewer than ten users are returned, every user with an in-window record is among them. */
  lemma TopBorrowersComplete(store: LibraryStore, start: int, end: int)
    ensures GetTopBorrowers(store, start, end).Ok? && |GetTopBorrowers(store, start, end).value| < TopCount ==>
              forall u :: u in store.users && BorrowedInRange(store, u.id, start, end)
                          ==> u in GetTopBorrowers(store, start, end).value
  {
    TopOfFilteredComplete(store.users, InWindow(store, start, end), ByWindowCount(store, start, end), TopCount);
  }

  /** An inverted window (start after end) holds no borrow date, so the query fails. */
  lemma InvertedRangeHasNoTopBorrowers(store: LibraryStore, start: int, end: int)
    requires start > end
    ensures GetTopBorrowers(store, start, end) == NotFound(NoTopBorrowersMessage)
  {
  }

  // ---------------------------------------------------------------------------
  // Resolving records to books (`Select(br => br.Book).Distinct()`)
  // ---------------------------------------------------------------------------

  /** The book each record refers to, in record order; a record whose book is
      missing contributes nothing. */
  function BooksOf(books: seq<Book>, records: seq<BorrowRecord>): (r: seq<Book>)
    ensures forall b :: b in r <==> exists br :: br in records && FindBook(books, br.bookId) == Some(b)
  {
    if records == [] then []
    else
      var n := |records| - 1;
      assert records == records[..n] + [records[n]];
      BooksOf(books, records[..n])
      + match FindBook(books, records[n].bookId) case Some(b) => [b] case None => []
  }

  /** Books that each are the lookup of their own id, and occur once, have distinct ids. */
  lemma ResolvedBooksHaveDistinctIds(books: seq<Book>, r: seq<Book>)
    requires NoDuplicates(r)
    requires forall b :: b in r ==> FindBook(books, b.id) == Some(b)
    ensures forall i, j :: 0 <= i < j < |r| ==> r[i].id != r[j].id
  {
  }

  /** `Select(br => br.Book).Distinct()` over the given records. */
  function DistinctBooksOf(books: seq<Book>, records: seq<BorrowRecord>): (r: seq<Book>)
    ensures NoDuplicates(r)
    ensures forall i, j :: 0 <= i < j < |r| ==> r[i].id != r[j].id
    ensures forall b :: b in r <==> exists br :: br in records && FindBook(books, br.bookId) == Some(b)
  {
    var d := Distinct(BooksOf(books, records));
    ResolvedBooksHaveDistinctIds(books, d);
    d
  }

  /** Nothing is resolved exactly when no record refers to an existing book. */
  lemma NoResolvedBooks(books: seq<Book>, records: seq<BorrowRecord>)
    ensures DistinctBooksOf(books, records) == []
            <==> forall br :: br in records ==> FindBook(books, br.bookId).None?
  {
    var r := DistinctBooksOf(books, records);
    if r != [] {
      assert r[0] in r;
    }
  }

  // ---------------------------------------------------------------------------
  // GetUserBorrowedBooksAsync
  // ---------------------------------------------------------------------------

  function UserNotFoundMessage(userId: int): string {
    "User with ID " + IntToString(userId) + " not found."
  }

  function NoBooksForUserMessage(userId: int): string {
    "No books found for user " + IntToString(userId) + " in the given date range."
  }

  /** The two NotFound causes of GetUserBorrowedBooks can be told apart. */
  lemma UserMessagesDiffer(userId: int)
    ensures UserNotFoundMessage(userId) != NoBooksForUserMessage(userId)
  {
    assert UserNotFoundMessage(userId)[0] == 'U';
    assert NoBooksForUserMessage(userId)[0] == 'N';
  }

  /** Records of the user borrowed in [start, end]. */
  function UserRecordsInRange(store: LibraryStore, userId: int, start: int, end: int): seq<BorrowRecord> {
    Filter(store.borrowRecords, (br: BorrowRecord) => br.userId == userId && InRange(br.borrowDate, start, end))
  }

  /** Some record of the user borrowed in [start, end] refers to book `b`. */
  predicate BorrowedBookInRange(store: LibraryStore, userId: int, start: int, end: int, b: Book) {
    exists br :: br in store.borrowRecords && br.userId == userId && InRange(br.borrowDate, start, end)
                 && FindBook(store.books, br.bookId) == Some(b)
  }

  /** The distinct books a user borrowed in [start, end]. The user's existence is
      checked first; an empty answer is a NotFound of its own. */
  function GetUserBorrowedBooks(store: LibraryStore, userId: int, start: int, end: int): (r: Result<seq<Book>>)
    ensures r == NotFound(UserNotFoundMessage(userId)) <==> !UserExists(store.users, userId)
    ensures r == NotFound(NoBooksForUserMessage(userId))
            <==> UserExists(store.users, userId)
                 && forall br :: br in store.borrowRecords && br.userId == userId && InRange(br.borrowDate, start, end)
                                 ==> FindBook(store.books, br.bookId).None?
    ensures !r.InvalidArgument?
    ensures r.NotFound? ==> r == NotFound(UserNotFoundMessage(userId)) || r == NotFound(NoBooksForUserMessage(userId))
    ensures r.Ok? ==> r.value != []
  {
    UserMessagesDiffer(userId);
    if !UserExists(store.users, userId) then
      NotFound(UserNotFoundMessage(userId))
    else
      var records := UserRecordsInRange(store, userId, start, end);
      var books := DistinctBooksOf(store.books, records);
      NoResolvedBooks(store.books, records);
      if books == [] then NotFound(NoBooksForUserMessage(userId)) else Ok(books)
  }

  /** A successful answer holds exactly the books of the user's in-window records,
      each once and with distinct ids, however often it was borrowed. */
  lemma UserBorrowedBooksExact(store: LibraryStore, userId: int, start: int, end: int)
    ensures GetUserBorrowedBooks(store, userId, start, end).Ok? ==>
              var books := GetUserBorrowedBooks(store, userId, start, end).value;
              && NoDuplicates(books)
              && (forall i, j :: 0 <= i < j < |books| ==> books[i].id != books[j].id)
              && forall b :: b in books <==> BorrowedBookInRange(store, userId, start, end, b)
  {
  }

  // ---------------------------------------------------------------------------
  // GetBooksBorrowedWithAsync
  // ---------------------------------------------------------------------------

  function BookWithIdNotFoundMessage(bookId: int): string {
    "Book with ID " + IntToString(bookId) + " not found."
  }

  function NoBorrowRecordsMessage(bookId: int): string {
    "No borrow records found for book ID " + IntToString(bookId) + "."
  }

  function NoAssociatedBooksMessage(bookId: int): string {
    "No associated books found with book ID " + IntToString(bookId) + "."
  }

  /** The three NotFound causes of GetBooksBorrowedWith can be told apart. */
  lemma BorrowedWithMessagesDiffer(bookId: int)
    ensures BookWithIdNotFoundMessage(bookId) != NoBorrowRecordsMessage(bookId)
    ensures BookWithIdNotFoundMessage(bookId) != NoAssociatedBooksMessage(bookId)
    ensures NoBorrowRecordsMessage(bookId) != NoAssociatedBooksMessage(bookId)
  {
    assert BookWithIdNotFoundMessage(bookId)[0] == 'B';
    assert NoBorrowRecordsMessage(bookId)[0] == 'N';
    assert NoAssociatedBooksMessage(bookId)[0] == 'N';
    assert NoBorrowRecordsMessage(bookId)[3] == 'b';
    assert NoAssociatedBooksMessage(bookId)[3] == 'a';
  }

  /** The user has borrowed the book at some time. */
  predicate HasBorrowed(store: LibraryStore, userId: int, bookId: int) {
    exists br | br in store.borrowRecords :: br.userId == userId && br.bookId == bookId
  }

  /** First step: the distinct ids of the users who ever borrowed the book. */
  function BorrowersOf(store: LibraryStore, bookId: int): (r: seq<int>)
    ensures NoDuplicates(r)
    ensures forall u :: u in r <==> HasBorrowed(store, u, bookId)
  {
    var ofBook := Filter(store.borrowRecords, (br: BorrowRecord) => br.bookId == bookId);
    var userIds := Project(ofBook, (br: BorrowRecord) => br.userId);
    ProjectMembership(ofBook, (br: BorrowRecord) => br.userId);
    Distinct(userIds)
  }

  /** Second step: the records, of other books, of the given users. */
  function RecordsOfBorrowers(store: LibraryStore, userIds: seq<int>, bookId: int): seq<BorrowRecord> {
    Filter(store.borrowRecords, (br: BorrowRecord) => br.userId in userIds && br.bookId != bookId)
  }

  /** Book `b` is another book borrowed by someone who also borrowed `bookId`. */
  predicate BorrowedAlongside(store: LibraryStore, bookId: int, b: Book) {
    exists br :: br in store.borrowRecords && br.bookId != bookId && HasBorrowed(store, br.userId, bookId)
                 && FindBook(store.books, br.bookId) == Some(b)
  }

  /** The distinct other books borrowed by the users who borrowed `bookId`.
      NotFound, with three different messages, when the book is unknown, when
      nobody borrowed it, or when its borrowers borrowed nothing else. */
  function GetBooksBorrowedWith(store: LibraryStore, bookId: int): (r: Result<seq<Book>>)
    ensures r == NotFound(BookWithIdNotFoundMessage(bookId)) <==> !BookExists(store.books, bookId)
    ensures r == NotFound(NoBorrowRecordsMessage(bookId))
            <==> BookExists(store.books, bookId) && forall br :: br in store.borrowRecords ==> br.bookId != bookId
    ensures !r.InvalidArgument?
    ensures r.NotFound? ==> r == NotFound(BookWithIdNotFoundMessage(bookId)) || r == NotFound(NoBorrowRecordsMessage(bookId))
                            || r == NotFound(NoAssociatedBooksMessage(bookId))
    ensures r.Ok? ==> r.value != []
  {
    BorrowedWithMessagesDiffer(bookId);
    if !BookExists(store.books, bookId) then
      NotFound(BookWithIdNotFoundMessage(bookId))
    else
      var userIds := BorrowersOf(store, bookId);
      if userIds == [] then
        NotFound(NoBorrowRecordsMessage(bookId))
      else
        assert HasBorrowed(store, userIds[0], bookId);
        var books := DistinctBooksOf(store.books, RecordsOfBorrowers(store, userIds, bookId));
        if books == [] then NotFound(NoAssociatedBooksMessage(bookId)) else Ok(books)
  }

  /** The third NotFound cause: the book was borrowed, but its borrowers'
      other records refer to no existing book. */
  lemma NoAssociatedBooksWhenNothingAlongside(store: LibraryStore, bookId: int)
    ensures GetBooksBorrowedWith(store, bookId) == NotFound(NoAssociatedBooksMessage(bookId))
            <==> BookExists(store.books, bookId) && (exists br :: br in store.borrowRecords && br.bookId == bookId)
                 && forall br :: br in store.borrowRecords && br.bookId != bookId && HasBorrowed(store, br.userId, bookId)
                                 ==> FindBook(store.books, br.bookId).None?
  {
    BorrowedWithMessagesDiffer(bookId);
    var userIds := BorrowersOf(store, bookId);
    var records := RecordsOfBorrowers(store, userIds, bookId);
    NoResolvedBooks(store.books, records);
    assert userIds != [] <==> exists br :: br in store.borrowRecords && br.bookId == bookId by {
      if userIds != [] {
        assert HasBorrowed(store, userIds[0], bookId);
      }
      if br :| br in store.borrowRecords && br.bookId == bookId {
        assert br.userId in userIds;
      }
    }
  }

  /** The resolved books of the borrowers' other records are exactly the books
      borrowed alongside, each once, never the queried book itself. */
  lemma AlongsideBooksExact(store: LibraryStore, bookId: int)
    ensures var books := DistinctBooksOf(store.books, RecordsOfBorrowers(store, BorrowersOf(store, bookId), bookId));
            && (forall b :: b in books ==> b.id != bookId)
            && forall b :: b in books <==> BorrowedAlongside(store, bookId, b)
  {
  }

  /** A successful answer holds exactly the other books borrowed by the book's
      borrowers, each once, never the queried book itself. */
  lemma BooksBorrowedWithExact(store: LibraryStore, bookId: int)
    ensures GetBooksBorrowedWith(store, bookId).Ok? ==>
              var books := GetBooksBorrowedWith(store, bookId).value;
              && NoDuplicates(books)
              && (forall i, j :: 0 <= i < j < |books| ==> books[i].id != books[j].id)
              && (forall b :: b in books ==> b.id != bookId)
              && forall b :: b in books <==> BorrowedAlongside(store, bookId, b)
  {
    if GetBooksBorrowedWith(store, bookId).Ok? {
      assert GetBooksBorrowedWith(store, bookId).value
             == DistinctBooksOf(store.books, RecordsOfBorrowers(store, BorrowersOf(store, bookId), bookId));
      AlongsideBooksExact(store, bookId);
    }
  }

  // ---------------------------------------------------------------------------
  // EstimateReadingRateAsync
  // ---------------------------------------------------------------------------

  function RecordNotFoundMessage(recordId: int): string {
    "Borrow record with ID " + IntToString(recordId) + " not found."
  }

  const ReturnDateRequiredMessage := "Return date is required."
  const BookInvalidMessage := "Book information is missing or invalid."
  const ReturnBeforeBorrowMessage := "Return date must be after borrow date."

  /** Days a returned loan lasted, counting both the borrow day and the return day:
      positive exactly when the return is not before the borrow, one for a same-day
      return. */
  function ElapsedDays(borrowDate: int, returnDate: int): (d: int)
    ensures d > 0 <==> borrowDate <= returnDate
    ensures d == 1 <==> borrowDate == returnDate
  {
    returnDate - borrowDate + 1
  }

  /** The book's pages spread evenly over the loan's days. */
  function PagesPerDay(pages: int, days: int): (rate: real)
    requires pages > 0 && days > 0
    ensures rate * (days as real) == pages as real
    ensures 0.0 < rate <= pages as real
  {
    var q := pages as real / days as real;
    assert q * 1.0 <= q * (days as real);
    q
  }

  /** Pages per day for one returned loan. Errors come in a fixed order: unknown
      record, loan not returned, book missing or without pages, return before borrow. */
  function EstimateReadingRate(store: LibraryStore, recordId: int): (r: Result<real>)
    ensures r.NotFound? ==> r == NotFound(RecordNotFoundMessage(recordId))
    ensures r.InvalidArgument? ==> r == InvalidArgument(ReturnDateRequiredMessage) || r == InvalidArgument(BookInvalidMessage)
                                   || r == InvalidArgument(ReturnBeforeBorrowMessage)
    ensures var rec := FindRecord(store.borrowRecords, recordId);
            r == NotFound(RecordNotFoundMessage(recordId)) <==> rec.None?
    ensures var rec := FindRecord(store.borrowRecords, recordId);
            r == InvalidArgument(ReturnDateRequiredMessage) <==> rec.Some? && rec.value.returnDate.None?
    ensures var rec := FindRecord(store.borrowRecords, recordId);
            r == InvalidArgument(BookInvalidMessage)
            <==> rec.Some? && rec.value.returnDate.Some?
                 && (FindBook(store.books, rec.value.bookId).None? || FindBook(store.books, rec.value.bookId).value.pages <= 0)
    ensures var rec := FindRecord(store.borrowRecords, recordId);
            r == InvalidArgument(ReturnBeforeBorrowMessage)
            <==> rec.Some? && rec.value.returnDate.Some?
                 && FindBook(store.books, rec.value.bookId).Some? && FindBook(store.books, rec.value.bookId).value.pages > 0
                 && rec.value.returnDate.value < rec.value.borrowDate
  {
    match FindRecord(store.borrowRecords, recordId)
    case None => NotFound(RecordNotFoundMessage(recordId))
    case Some(rec) =>
      if rec.returnDate.None? then InvalidArgument(ReturnDateRequiredMessage)
      else match FindBook(store.books, rec.bookId)
        case None => InvalidArgument(BookInvalidMessage)
        case Some(book) =>
          if book.pages <= 0 then InvalidArgument(BookInvalidMessage)
          else
            var days := ElapsedDays(rec.borrowDate, rec.returnDate.value);
            if days <= 0 then InvalidArgument(ReturnBeforeBorrowMessage)
            else Ok(PagesPerDay(book.pages, days))
  }

  /** A rate, when there is one, is the book's pages spread evenly over the loan's
      days counted inclusively, which `PagesPerDay` states arithmetically. */
  lemma ReadingRateSpreadsPages(store: LibraryStore, recordId: int, rec: BorrowRecord, book: Book)
    requires FindRecord(store.borrowRecords, recordId) == Some(rec)
    requires FindBook(store.books, rec.bookId) == Some(book)
    ensures EstimateReadingRate(store, recordId).Ok? ==>
              && rec.returnDate.Some? && rec.borrowDate <= rec.returnDate.value && book.pages > 0
              && EstimateReadingRate(store, recordId)
                 == Ok(PagesPerDay(book.pages, ElapsedDays(rec.borrowDate, rec.returnDate.value)))
  {
  }
}
