/** The older gRPC implementation of the same six queries. It never fails with a
    status: a missing answer is an empty list or a zero rate. Its borrow records
    name their dates `borrowedAt` and `returnedAt`, and its reading rate divides by
    the mean loan length without counting the return day. */
module LegacyLibraryService {
  import opened Collections
  import opened Ranking

  datatype Book = Book(id: int, title: string, totalCopies: int, pages: int)

  datatype User = User(id: int, name: string)

  /** One loan; `returnedAt` is `None` while the copy is out. */
  datatype BorrowRecord = BorrowRecord(bookId: int, userId: int, borrowedAt: int, returnedAt: Option<int>)

  datatype Store = Store(books: seq<Book>, users: seq<User>, borrowRecords: seq<BorrowRecord>)

  datatype BookResponse = BookResponse(id: int, title: string, borrowCount: int)

  datatype UserResponse = UserResponse(id: int, name: string, borrowCount: int)

  datatype AvailabilityResponse = AvailabilityResponse(totalCopies: int, borrowedCopies: int, availableCopies: int)

  /** Pages per day, or the non-finite value a division by a zero mean produces. */
  datatype ReadingRate = PagesPerDay(value: real) | NotFinite

  // The older service has its own entity types, so it keeps its own copies of the
  // ten-row cut and of the by-id book lookup rather than sharing the analytics ones.
  const TopCount: nat := 10

  // ---------------------------------------------------------------------------
  // Keys, groups and rows
  // ---------------------------------------------------------------------------

  function BookKey(b: Book): int { b.id }

  function UserKey(u: User): int { u.id }

  function BookIdOf(br: BorrowRecord): int { br.bookId }

  function UserIdOf(br: BorrowRecord): int { br.userId }

  /** The keys of `GroupBy(keyOf)`, in order of first appearance. */
  function GroupKeys(records: seq<BorrowRecord>, keyOf: BorrowRecord -> int): (r: seq<int>)
    ensures NoDuplicates(r)
    ensures forall k :: k in r <==> exists br :: br in records && keyOf(br) == k
  {
    ProjectMembership(records, keyOf);
    Distinct(Project(records, keyOf))
  }

  /** The records of one book. */
  function OfBook(bookId: int): BorrowRecord -> bool {
    (br: BorrowRecord) => br.bookId == bookId
  }

  /** The records of one user. */
  function OfUser(userId: int): BorrowRecord -> bool {
    (br: BorrowRecord) => br.userId == userId
  }

  /** `g.Count()` for the group of a book id. */
  function BookGroupSize(records: seq<BorrowRecord>): int -> int {
    (k: int) => Count(records, OfBook(k))
  }

  /** `g.Count()` for the group of a user id. */
  function UserGroupSize(records: seq<BorrowRecord>): int -> int {
    (k: int) => Count(records, OfUser(k))
  }

  /** A group key has at least one record. */
  lemma GroupsAreNotEmpty(records: seq<BorrowRecord>)
    ensures forall k :: k in GroupKeys(records, BookIdOf) ==> BookGroupSize(records)(k) > 0
    ensures forall k :: k in GroupKeys(records, UserIdOf) ==> UserGroupSize(records)(k) > 0
  {
    forall k | k in GroupKeys(records, BookIdOf) ensures BookGroupSize(records)(k) > 0 {
      var br :| br in records && BookIdOf(br) == k;
      var i :| 0 <= i < |records| && records[i] == br;
    }
    forall k | k in GroupKeys(records, UserIdOf) ensures UserGroupSize(records)(k) > 0 {
      var br :| br in records && UserIdOf(br) == k;
      var i :| 0 <= i < |records| && records[i] == br;
    }
  }

  // ---------------------------------------------------------------------------
  // GetMostBorrowedBooks
  // ---------------------------------------------------------------------------

  /** The ten book ids with the most records, most first. */
  function RankedBookGroups(records: seq<BorrowRecord>): (r: seq<int>)
    ensures |r| <= TopCount
    ensures forall k :: k in r ==> k in GroupKeys(records, BookIdOf)
    ensures forall i, j :: 0 <= i < j < |r| ==> BookGroupSize(records)(r[i]) >= BookGroupSize(records)(r[j])
  {
    var keys := GroupKeys(records, BookIdOf);
    var r := Top(keys, BookGroupSize(records), TopCount);
    assert forall k :: k in r ==> k in keys by {
      forall k | k in r ensures k in keys { assert k in multiset(r); }
    }
    r
  }

  /** A joined (book id, book) pair as a response row carrying the group's size. */
  function BookRow(records: seq<BorrowRecord>): ((int, Book)) -> BookResponse {
    (m: (int, Book)) => BookResponse(m.1.id, m.1.title, BookGroupSize(records)(m.0))
  }

  /** Each row of a join of book ids with books is a stored book whose id is one
      of the keys, with the size of that key's group. */
  lemma BookRowsOfJoin(keys: seq<int>, books: seq<Book>, records: seq<BorrowRecord>)
    ensures forall e :: e in Project(Join(keys, books, BookKey), BookRow(records)) ==>
              && e.id in keys
              && e.borrowCount == BookGroupSize(records)(e.id)
              && exists b :: b in books && b.id == e.id && b.title == e.title
  {
    var joined := Join(keys, books, BookKey);
    ProjectMembership(joined, BookRow(records));
    forall e | e in Project(joined, BookRow(records))
      ensures e.id in keys && e.borrowCount == BookGroupSize(records)(e.id)
      ensures exists b :: b in books && b.id == e.id && b.title == e.title
    {
      var m :| m in joined && BookRow(records)(m) == e;
      assert m.1 in books && m.1.id == e.id;
    }
  }

  /** What a ranked key was drawn from. */
  lemma RankedKeysAreGroups(records: seq<BorrowRecord>)
    ensures forall k :: k in RankedBookGroups(records) ==> k in GroupKeys(records, BookIdOf)
  {
    forall k | k in RankedBookGroups(records) ensures k in GroupKeys(records, BookIdOf) {
      assert k in multiset(RankedBookGroups(records));
    }
  }

  /** Groups the records by book, keeps the ten largest groups and joins them with
      the books: each row carries a stored book's id and title and the number of its
      records, so a book without records never appears. */
  function GetMostBorrowedBooks(store: Store): (r: seq<BookResponse>)
    ensures forall e :: e in r ==> exists b :: b in store.books && b.id == e.id && b.title == e.title
    ensures forall e :: e in r ==> e.borrowCount == BookGroupSize(store.borrowRecords)(e.id) > 0
  {
    var ranked := RankedBookGroups(store.borrowRecords);
    BookRowsOfJoin(ranked, store.books, store.borrowRecords);
    RankedKeysAreGroups(store.borrowRecords);
    GroupsAreNotEmpty(store.borrowRecords);
    Project(Join(ranked, store.books, BookKey), BookRow(store.borrowRecords))
  }

  /** With unique book ids (the primary key) there are at most ten rows. */
  lemma MostBorrowedAtMostTen(store: Store)
    requires UniqueIds(store.books, BookKey)
    ensures |GetMostBorrowedBooks(store)| <= TopCount
  {
    JoinSize(RankedBookGroups(store.borrowRecords), store.books, BookKey);
  }

  /** Rows come most borrowed first. */
  lemma MostBorrowedRanked(store: Store)
    ensures forall i, j :: 0 <= i < j < |GetMostBorrowedBooks(store)|
                           ==> GetMostBorrowedBooks(store)[i].borrowCount >= GetMostBorrowedBooks(store)[j].borrowCount
  {
    var records := store.borrowRecords;
    var ranked := RankedBookGroups(records);
    JoinKeepsKeyOrder(ranked, store.books, BookKey, BookGroupSize(records));
  }

  /** A book id with a record is a group key. */
  lemma BorrowedBookIsGroup(records: seq<BorrowRecord>, k: int)
    requires BookGroupSize(records)(k) > 0
    ensures k in GroupKeys(records, BookIdOf)
  {
    var i :| 0 <= i < |records| && records[i].bookId == k;
    assert records[i] in records && BookIdOf(records[i]) == k;
  }

  /** A stored book whose id is one of the join keys gets a row. */
  lemma JoinedBookIsListed(keys: seq<int>, books: seq<Book>, records: seq<BorrowRecord>, b: Book)
    requires b in books && b.id in keys
    ensures exists e :: e in Project(Join(keys, books, BookKey), BookRow(records)) && e.id == b.id
  {
    var joined := Join(keys, books, BookKey);
    assert (b.id, b) in joined;
    var k :| 0 <= k < |joined| && joined[k] == (b.id, b);
    assert Project(joined, BookRow(records))[k].id == b.id;
  }

  /** A stored book whose id is among the ranked groups gets a row. */
  lemma RankedBookIsListed(store: Store, b: Book)
    requires b in store.books && b.id in RankedBookGroups(store.borrowRecords)
    ensures exists e :: e in GetMostBorrowedBooks(store) && e.id == b.id
  {
    var ranked := RankedBookGroups(store.borrowRecords);
    JoinedBookIsListed(ranked, store.books, store.borrowRecords, b);
    assert GetMostBorrowedBooks(store) == Project(Join(ranked, store.books, BookKey), BookRow(store.borrowRecords));
  }

  /** A stored, borrowed book that is not listed was borrowed no more often than any
      listed one. */
  lemma MostBorrowedOutrankTheRest(store: Store, b: Book)
    requires b in store.books && BookGroupSize(store.borrowRecords)(b.id) > 0
    requires forall x :: x in GetMostBorrowedBooks(store) ==> x.id != b.id
    ensures forall e :: e in GetMostBorrowedBooks(store) ==> BookGroupSize(store.borrowRecords)(b.id) <= e.borrowCount
  {
    var records := store.borrowRecords;
    var ranked := RankedBookGroups(records);
    BorrowedBookIsGroup(records, b.id);
    if b.id in ranked {
      RankedBookIsListed(store, b);
    }
    TopOutranksRest(GroupKeys(records, BookIdOf), BookGroupSize(records), TopCount);
    BookRowsOfJoin(ranked, store.books, records);
    forall e | e in GetMostBorrowedBooks(store) ensures BookGroupSize(records)(b.id) <= e.borrowCount {
      var i :| 0 <= i < |ranked| && ranked[i] == e.id;
    }
  }

  /** When at most ten books were ever borrowed, every borrowed stored book is listed. */
  lemma MostBorrowedComplete(store: Store, b: Book)
    requires |GroupKeys(store.borrowRecords, BookIdOf)| <= TopCount
    requires b in store.books && BookGroupSize(store.borrowRecords)(b.id) > 0
    ensures exists e :: e in GetMostBorrowedBooks(store) && e.id == b.id
  {
    var records := store.borrowRecords;
    var keys := GroupKeys(records, BookIdOf);
    BorrowedBookIsGroup(records, b.id);
    assert multiset(RankedBookGroups(records)) == multiset(keys);
    assert b.id in multiset(keys);
    RankedBookIsListed(store, b);
  }

  /** Size of a book's group: the number of records of that book. */
  lemma BookGroupSizeIsRecordCount(records: seq<BorrowRecord>, k: int)
    ensures BookGroupSize(records)(k) == |set i | 0 <= i < |records| && records[i].bookId == k|
  {
    CountIsMatchingSize(records, OfBook(k));
    assert Matching(records, OfBook(k)) == set i | 0 <= i < |records| && records[i].bookId == k;
  }

  // ---------------------------------------------------------------------------
  // GetBookAvailability
  // ---------------------------------------------------------------------------

  /** `Books.FindAsync(id)`: the stored book with that key. */
  function FindBook(books: seq<Book>, id: int): (r: Option<Book>)
    ensures r.None? <==> forall b :: b in books ==> b.id != id
    ensures r.Some? ==> r.value in books && r.value.id == id
  {
    FirstWhere(books, (b: Book) => b.id == id)
  }

  /** Total, borrowed and available copies of a stored book. The source dereferences
      the looked-up book without a check, so the book must exist. */
  function GetBookAvailability(store: Store, bookId: int): (r: AvailabilityResponse)
    requires exists b :: b in store.books && b.id == bookId
    ensures r.availableCopies == r.totalCopies - r.borrowedCopies
    ensures r.borrowedCopies == |set i | 0 <= i < |store.borrowRecords| && store.borrowRecords[i].bookId == bookId
                                                                         && store.borrowRecords[i].returnedAt.None?|
    ensures exists b :: b in store.books && b.id == bookId && r.totalCopies == b.totalCopies
  {
    var book := FindBook(store.books, bookId).value;
    var p := (br: BorrowRecord) => br.bookId == bookId && br.returnedAt.None?;
    var borrowed := Count(store.borrowRecords, p);
    CountIsMatchingSize(store.borrowRecords, p);
    assert Matching(store.borrowRecords, p)
        == set i | 0 <= i < |store.borrowRecords| && store.borrowRecords[i].bookId == bookId
                                                  && store.borrowRecords[i].returnedAt.None?;
    AvailabilityResponse(book.totalCopies, borrowed, book.totalCopies - borrowed)
  }

  // ---------------------------------------------------------------------------
  // GetTopBorrowers
  // ---------------------------------------------------------------------------

  /** The inclusive borrow-date window [start, end]. */
  function InWindow(start: int, end: int): BorrowRecord -> bool {
    (br: BorrowRecord) => start <= br.borrowedAt <= end
  }

  function WindowRecords(records: seq<BorrowRecord>, start: int, end: int): seq<BorrowRecord> {
    Filter(records, InWindow(start, end))
  }

  /** The ten user ids with the most in-window records, most first. */
  function RankedUserGroups(window: seq<BorrowRecord>): (r: seq<int>)
    ensures |r| <= TopCount
    ensures forall k :: k in r ==> k in GroupKeys(window, UserIdOf)
    ensures forall i, j :: 0 <= i < j < |r| ==> UserGroupSize(window)(r[i]) >= UserGroupSize(window)(r[j])
  {
    var keys := GroupKeys(window, UserIdOf);
    var r := Top(keys, UserGroupSize(window), TopCount);
    assert forall k :: k in r ==> k in keys by {
      forall k | k in r ensures k in keys { assert k in multiset(r); }
    }
    r
  }

  function UserRow(window: seq<BorrowRecord>): ((int, User)) -> UserResponse {
    (m: (int, User)) => UserResponse(m.1.id, m.1.name, UserGroupSize(window)(m.0))
  }

  /** Each row of a join of user ids with users is a stored user whose id is one of
      the keys, with the size of that key's group. */
  lemma UserRowsOfJoin(keys: seq<int>, users: seq<User>, window: seq<BorrowRecord>)
    ensures forall e :: e in Project(Join(keys, users, UserKey), UserRow(window)) ==>
              && e.id in keys
              && e.borrowCount == UserGroupSize(window)(e.id)
              && exists u :: u in users && u.id == e.id && u.name == e.name
  {
    var joined := Join(keys, users, UserKey);
    ProjectMembership(joined, UserRow(window));
    forall e | e in Project(joined, UserRow(window))
      ensures e.id in keys && e.borrowCount == UserGroupSize(window)(e.id)
      ensures exists u :: u in users && u.id == e.id && u.name == e.name
    {
      var m :| m in joined && UserRow(window)(m) == e;
      assert m.1 in users && m.1.id == e.id;
    }
  }

  /** Keeps the records borrowed in [start, end], groups them by user, keeps the ten
      largest groups and joins them with the users. Nothing in the window gives an
      empty list, not an error. */
  function GetTopBorrowers(store: Store, start: int, end: int): (r: seq<UserResponse>)
    ensures forall e :: e in r ==> exists u :: u in store.users && u.id == e.id && u.name == e.name
    ensures forall e :: e in r ==> e.borrowCount == UserGroupSize(WindowRecords(store.borrowRecords, start, end))(e.id) > 0
  {
    var window := WindowRecords(store.borrowRecords, start, end);
    var ranked := RankedUserGroups(window);
    UserRowsOfJoin(ranked, store.users, window);
    GroupsAreNotEmpty(window);
    forall k | k in ranked ensures k in GroupKeys(window, UserIdOf) {
      assert k in multiset(ranked);
    }
    Project(Join(ranked, store.users, UserKey), UserRow(window))
  }

  /** Counting in the window is counting the records that are both in the window and
      the user's. */
  lemma WindowCountIsBothCount(records: seq<BorrowRecord>, start: int, end: int, k: int)
    ensures UserGroupSize(WindowRecords(records, start, end))(k) == Count(records, Both(InWindow(start, end), OfUser(k)))
  {
    CountFiltered(records, InWindow(start, end), OfUser(k));
  }

  /** A user's group size is the number of their records borrowed in the window. */
  lemma UserGroupSizeIsWindowCount(records: seq<BorrowRecord>, start: int, end: int, k: int)
    ensures UserGroupSize(WindowRecords(records, start, end))(k)
            == |set i | 0 <= i < |records| && start <= records[i].borrowedAt <= end && records[i].userId == k|
  {
    var pq := Both(InWindow(start, end), OfUser(k));
    WindowCountIsBothCount(records, start, end, k);
    CountIsMatchingSize(records, pq);
    assert Matching(records, pq)
        == set i | 0 <= i < |records| && start <= records[i].borrowedAt <= end && records[i].userId == k;
  }

  /** With unique user ids there are at most ten rows. */
  lemma TopBorrowersAtMostTen(store: Store, start: int, end: int)
    requires UniqueIds(store.users, UserKey)
    ensures |GetTopBorrowers(store, start, end)| <= TopCount
  {
    JoinSize(RankedUserGroups(WindowRecords(store.borrowRecords, start, end)), store.users, UserKey);
  }

  /** Rows come with the most in-window records first. */
  lemma TopBorrowersRanked(store: Store, start: int, end: int)
    ensures forall i, j :: 0 <= i < j < |GetTopBorrowers(store, start, end)|
                           ==> GetTopBorrowers(store, start, end)[i].borrowCount >= GetTopBorrowers(store, start, end)[j].borrowCount
  {
    var window := WindowRecords(store.borrowRecords, start, end);
    JoinKeepsKeyOrder(RankedUserGroups(window), store.users, UserKey, UserGroupSize(window));
  }

  /** A user id with an in-window record is a group key of the window. */
  lemma BorrowedUserIsGroup(window: seq<BorrowRecord>, k: int)
    requires UserGroupSize(window)(k) > 0
    ensures k in GroupKeys(window, UserIdOf)
  {
    var i :| 0 <= i < |window| && window[i].userId == k;
    assert window[i] in window && UserIdOf(window[i]) == k;
  }

  /** A stored user whose id is one of the join keys gets a row. */
  lemma JoinedUserIsListed(keys: seq<int>, users: seq<User>, window: seq<BorrowRecord>, u: User)
    requires u in users && u.id in keys
    ensures exists e :: e in Project(Join(keys, users, UserKey), UserRow(window)) && e.id == u.id
  {
    var joined := Join(keys, users, UserKey);
    assert (u.id, u) in joined;
    var k :| 0 <= k < |joined| && joined[k] == (u.id, u);
    assert Project(joined, UserRow(window))[k].id == u.id;
  }

  /** A stored user whose id is among the ranked groups gets a row. */
  lemma RankedUserIsListed(store: Store, start: int, end: int, u: User)
    requires u in store.users && u.id in RankedUserGroups(WindowRecords(store.borrowRecords, start, end))
    ensures exists e :: e in GetTopBorrowers(store, start, end) && e.id == u.id
  {
    var window := WindowRecords(store.borrowRecords, start, end);
    var ranked := RankedUserGroups(window);
    JoinedUserIsListed(ranked, store.users, window, u);
    assert GetTopBorrowers(store, start, end) == Project(Join(ranked, store.users, UserKey), UserRow(window));
  }

  /** A stored user with in-window records who is not listed has no more of them
      than any listed user. */
  lemma TopBorrowersOutrankTheRest(store: Store, start: int, end: int, u: User)
    requires u in store.users && UserGroupSize(WindowRecords(store.borrowRecords, start, end))(u.id) > 0
    requires forall x :: x in GetTopBorrowers(store, start, end) ==> x.id != u.id
    ensures forall e :: e in GetTopBorrowers(store, start, end)
                        ==> UserGroupSize(WindowRecords(store.borrowRecords, start, end))(u.id) <= e.borrowCount
  {
    var window := WindowRecords(store.borrowRecords, start, end);
    var ranked := RankedUserGroups(window);
    BorrowedUserIsGroup(window, u.id);
    if u.id in ranked {
      RankedUserIsListed(store, start, end, u);
    }
    TopOutranksRest(GroupKeys(window, UserIdOf), UserGroupSize(window), TopCount);
    UserRowsOfJoin(ranked, store.users, window);
    forall e | e in GetTopBorrowers(store, start, end) ensures UserGroupSize(window)(u.id) <= e.borrowCount {
      var i :| 0 <= i < |ranked| && ranked[i] == e.id;
    }
  }

  /** When at most ten users borrowed in the window, every such stored user is listed. */
  lemma TopBorrowersComplete(store: Store, start: int, end: int, u: User)
    requires |GroupKeys(WindowRecords(store.borrowRecords, start, end), UserIdOf)| <= TopCount
    requires u in store.users && UserGroupSize(WindowRecords(store.borrowRecords, start, end))(u.id) > 0
    ensures exists e :: e in GetTopBorrowers(store, start, end) && e.id == u.id
  {
    var window := WindowRecords(store.borrowRecords, start, end);
    var keys := GroupKeys(window, UserIdOf);
    BorrowedUserIsGroup(window, u.id);
    assert multiset(RankedUserGroups(window)) == multiset(keys);
    assert u.id in multiset(keys);
    RankedUserIsListed(store, start, end, u);
  }

  /** An inverted window (start after end) gives no rows. */
  lemma InvertedWindowHasNoBorrowers(store: Store, start: int, end: int)
    requires start > end
    ensures GetTopBorrowers(store, start, end) == []
  {
    var window := WindowRecords(store.borrowRecords, start, end);
    assert GroupKeys(window, UserIdOf) == [];
  }

  // ---------------------------------------------------------------------------
  // GetUserBorrowHistory
  // ---------------------------------------------------------------------------

  /** The user has a record of the book borrowed in [start, end]. */
  predicate BorrowedInWindow(records: seq<BorrowRecord>, userId: int, start: int, end: int, bookId: int) {
    exists br :: br in records && br.userId == userId && start <= br.borrowedAt <= end && br.bookId == bookId
  }

  function UserInWindow(userId: int, start: int, end: int): BorrowRecord -> bool {
    (br: BorrowRecord) => br.userId == userId && start <= br.borrowedAt <= end
  }

  /** The `Where(b => ids.Contains(b.Id))` test. */
  function IdIn(ids: seq<int>): Book -> bool {
    (b: Book) => b.id in ids
  }

  /** A listed book: id and title, with the default borrow count of zero. */
  function Listed(b: Book): BookResponse {
    BookResponse(b.id, b.title, 0)
  }

  /** The distinct book ids of the user's in-window records. */
  function HistoryBookIds(records: seq<BorrowRecord>, userId: int, start: int, end: int): (r: seq<int>)
    ensures forall k :: k in r <==> BorrowedInWindow(records, userId, start, end, k)
  {
    var mine := Filter(records, UserInWindow(userId, start, end));
    ProjectMembership(mine, BookIdOf);
    Distinct(Project(mine, BookIdOf))
  }

  /** Listing the stored books that pass a test gives rows that are exactly the
      listings of those books. */
  lemma ListedMembership(books: seq<Book>, p: Book -> bool)
    ensures forall e :: e in Project(Filter(books, p), Listed) <==> exists b :: b in books && p(b) && e == Listed(b)
  {
    ProjectMembership(Filter(books, p), Listed);
  }

  /** Listing stored books with unique ids gives rows with unique ids. */
  lemma ListedUniqueIds(books: seq<Book>, p: Book -> bool)
    requires UniqueIds(books, BookKey)
    ensures forall i, j :: 0 <= i < j < |Project(Filter(books, p), Listed)|
                           ==> Project(Filter(books, p), Listed)[i].id != Project(Filter(books, p), Listed)[j].id
  {
    FilterKeepsUniqueIds(books, p, BookKey);
  }

  /** The stored books the user borrowed in [start, end], each once, in store order;
      an unknown user gives an empty list. */
  function GetUserBorrowHistory(store: Store, userId: int, start: int, end: int): (r: seq<BookResponse>)
    ensures forall e :: e in r <==> exists b :: b in store.books && e == Listed(b)
                                                && BorrowedInWindow(store.borrowRecords, userId, start, end, b.id)
  {
    var ids := HistoryBookIds(store.borrowRecords, userId, start, end);
    ListedMembership(store.books, IdIn(ids));
    Project(Filter(store.books, IdIn(ids)), Listed)
  }

  /** With unique book ids no book is listed twice. */
  lemma UserBorrowHistoryUnique(store: Store, userId: int, start: int, end: int)
    requires UniqueIds(store.books, BookKey)
    ensures forall i, j :: 0 <= i < j < |GetUserBorrowHistory(store, userId, start, end)|
                           ==> GetUserBorrowHistory(store, userId, start, end)[i].id
                               != GetUserBorrowHistory(store, userId, start, end)[j].id
  {
    ListedUniqueIds(store.books, IdIn(HistoryBookIds(store.borrowRecords, userId, start, end)));
  }

  /** A user without records has an empty history. */
  lemma UnknownUserHasNoHistory(store: Store, userId: int, start: int, end: int)
    requires forall br :: br in store.borrowRecords ==> br.userId != userId
    ensures GetUserBorrowHistory(store, userId, start, end) == []
  {
  }

  // ---------------------------------------------------------------------------
  // GetAlsoBorrowedBooks
  // ---------------------------------------------------------------------------

  predicate HasBorrowed(records: seq<BorrowRecord>, userId: int, bookId: int) {
    exists br :: br in records && br.userId == userId && br.bookId == bookId
  }

  /** Another book, borrowed by some user who also borrowed `bookId`. */
  predicate CoBorrowed(records: seq<BorrowRecord>, bookId: int, other: int) {
    other != bookId && exists br :: br in records && br.bookId == other && HasBorrowed(records, br.userId, bookId)
  }


  /** The distinct users who borrowed the book. */
  function BorrowersOf(records: seq<BorrowRecord>, bookId: int): (r: seq<int>)
    ensures forall u :: u in r <==> HasBorrowed(records, u, bookId)
  {
    var ofBook := Filter(records, OfBook(bookId));
    ProjectMembership(ofBook, UserIdOf);
    Distinct(Project(ofBook, UserIdOf))
  }

  function ByUsersExcept(userIds: seq<int>, bookId: int): BorrowRecord -> bool {
    (br: BorrowRecord) => br.userId in userIds && br.bookId != bookId
  }

  /** The book ids of the records that pass `ByUsersExcept` are exactly the books
      co-borrowed with `bookId`. */
  lemma CoRecordsAreCoBorrowed(records: seq<BorrowRecord>, bookId: int)
    ensures var others := Filter(records, ByUsersExcept(BorrowersOf(records, bookId), bookId));
            forall k :: (exists br :: br in others && BookIdOf(br) == k) <==> CoBorrowed(records, bookId, k)
  {
    var users := BorrowersOf(records, bookId);
    var others := Filter(records, ByUsersExcept(users, bookId));
    forall k ensures (exists br :: br in others && BookIdOf(br) == k) <==> CoBorrowed(records, bookId, k) {
      if exists br :: br in others && BookIdOf(br) == k {
        var br :| br in others && BookIdOf(br) == k;
        assert br.userId in users;
      }
      if CoBorrowed(records, bookId, k) {
        var br :| br in records && br.bookId == k && HasBorrowed(records, br.userId, bookId);
        assert ByUsersExcept(users, bookId)(br);
        assert br in others;
      }
    }
  }

  /** The ids of the other books those users borrowed, grouped and ordered by how
      often they were borrowed. */
  function AlsoBorrowedIds(records: seq<BorrowRecord>, bookId: int): (r: seq<int>)
    ensures forall k :: k in r <==> CoBorrowed(records, bookId, k)
  {
    var others := Filter(records, ByUsersExcept(BorrowersOf(records, bookId), bookId));
    var keys := GroupKeys(others, BookIdOf);
    var r := SortDescending(keys, BookGroupSize(others));
    CoRecordsAreCoBorrowed(records, bookId);
    assert forall k :: k in r <==> k in keys by {
      forall k ensures k in r <==> k in keys {
        assert k in r <==> k in multiset(r);
      }
    }
    r
  }

  /** The test the stored books pass: co-borrowed with `bookId`. */
  function CoBorrowedBook(records: seq<BorrowRecord>, bookId: int): Book -> bool {
    (b: Book) => CoBorrowed(records, bookId, b.id)
  }

  /** The stored books borrowed by users who borrowed `bookId`, other than that book,
      in store order. */
  function GetAlsoBorrowedBooks(store: Store, bookId: int): (r: seq<BookResponse>)
    ensures forall e :: e in r <==> exists b :: b in store.books && e == Listed(b)
                                                && CoBorrowed(store.borrowRecords, bookId, b.id)
    ensures forall e :: e in r ==> e.id != bookId
  {
    var ids := AlsoBorrowedIds(store.borrowRecords, bookId);
    ListedMembership(store.books, IdIn(ids));
    Project(Filter(store.books, IdIn(ids)), Listed)
  }

  /** The frequency order of the grouped ids is lost: the answer is the co-borrowed
      stored books in store order, whatever their counts. */
  lemma AlsoBorrowedInStoreOrder(store: Store, bookId: int)
    ensures GetAlsoBorrowedBooks(store, bookId)
            == Project(Filter(store.books, CoBorrowedBook(store.borrowRecords, bookId)), Listed)
  {
    FilterExtensional(store.books, IdIn(AlsoBorrowedIds(store.borrowRecords, bookId)),
                      CoBorrowedBook(store.borrowRecords, bookId));
  }

  /** A book nobody borrowed has no companions. */
  lemma NeverBorrowedHasNoCompanions(store: Store, bookId: int)
    requires forall br :: br in store.borrowRecords ==> br.bookId != bookId
    ensures GetAlsoBorrowedBooks(store, bookId) == []
  {
  }

  // ---------------------------------------------------------------------------
  // GetReadingRate
  // ---------------------------------------------------------------------------

  function ReturnedOf(bookId: int): BorrowRecord -> bool {
    (br: BorrowRecord) => br.bookId == bookId && br.returnedAt.Some?
  }

  /** Days between borrowing and returning, without counting the return day. */
  function LoanDays(br: BorrowRecord): (d: int)
    ensures d == 0 <==> br.returnedAt.None? || br.returnedAt.value == br.borrowedAt
    ensures br.returnedAt.Some? ==> (d < 0 <==> br.returnedAt.value < br.borrowedAt)
  {
    if br.returnedAt.Some? then br.returnedAt.value - br.borrowedAt else 0
  }

  /** Pages over the mean loan length `total / count`, that is `pages * count / total`. */
  function PagesOverMean(pages: int, total: int, count: int): (q: real)
    requires total != 0 && count > 0
    ensures q * (total as real) == (pages as real) * (count as real)
  {
    (pages as real) * (count as real) / total as real
  }

  /** Pages over the mean loan length of the book's returned records; zero when there
      is none or the book is missing; not finite when the mean is zero. */
  function GetReadingRate(store: Store, bookId: int): (r: ReadingRate)
    ensures var returned := Filter(store.borrowRecords, ReturnedOf(bookId));
            |returned| == 0 || FindBook(store.books, bookId).None? ==> r == PagesPerDay(0.0)
    ensures var returned := Filter(store.borrowRecords, ReturnedOf(bookId));
            r == NotFinite <==> |returned| > 0 && FindBook(store.books, bookId).Some? && Sum(returned, LoanDays) == 0
    ensures var returned := Filter(store.borrowRecords, ReturnedOf(bookId));
            var book := FindBook(store.books, bookId);
            |returned| > 0 && book.Some? && Sum(returned, LoanDays) != 0
            ==> r == PagesPerDay(PagesOverMean(book.value.pages, Sum(returned, LoanDays), |returned|))
  {
    var returned := Filter(store.borrowRecords, ReturnedOf(bookId));
    var book := FindBook(store.books, bookId);
    if |returned| == 0 || book.None? then PagesPerDay(0.0)
    else if Sum(returned, LoanDays) == 0 then NotFinite
    else PagesPerDay(PagesOverMean(book.value.pages, Sum(returned, LoanDays), |returned|))
  }

  /** One loan of 150 pages from day 0 to day 5 reads 30 pages a day: the return day
      is not counted. */
  lemma ReadingRateExample(store: Store)
    requires |store.books| == 1 && store.books[0].id == 1 && store.books[0].pages == 150
    requires store.borrowRecords == [BorrowRecord(1, 1, 0, Some(5))]
    ensures GetReadingRate(store, 1) == PagesPerDay(30.0)
  {
    var returned := Filter(store.borrowRecords, ReturnedOf(1));
    assert store.borrowRecords[..0] == [];
    assert returned == store.borrowRecords;
    assert returned[..0] == [];
    assert Sum(returned, LoanDays) == 5;
    assert FindBook(store.books, 1) == Some(store.books[0]);
  }
}
