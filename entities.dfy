/** The three record collections the library analytics service reads:
    books, users and borrow records. A record refers to its book and its user
    by id; dates are whole day numbers. */
module Entities {
  import opened Collections

  datatype Book = Book(id: int, title: string, totalCopies: int, pages: int)

  datatype User = User(id: int, name: string)

  /** One loan; `returnDate` is `None` while the copy is still out. */
  datatype BorrowRecord = BorrowRecord(id: int, bookId: int, userId: int, borrowDate: int, returnDate: Option<int>)

  /** A snapshot of the store the queries run against. */
  datatype LibraryStore = LibraryStore(books: seq<Book>, users: seq<User>, borrowRecords: seq<BorrowRecord>)

  /** Inclusive date window test used by every range query. */
  predicate InRange(date: int, start: int, end: int) {
    start <= date <= end
  }

  /** The book a foreign key refers to: the first book with that id. */
  function FindBook(books: seq<Book>, id: int): (r: Option<Book>)
    ensures r.None? <==> forall i :: 0 <= i < |books| ==> books[i].id != id
    ensures r.Some? ==> r.value in books && r.value.id == id
  {
    FirstWhere(books, (b: Book) => b.id == id)
  }

  /** A book whose id no other book shares is what a lookup of that id finds. */
  lemma FindBookUnique(books: seq<Book>, k: nat)
    requires k < |books|
    requires forall i :: 0 <= i < |books| && i != k ==> books[i].id != books[k].id
    ensures FindBook(books, books[k].id) == Some(books[k])
  {
  }

  /** The borrow record with the given id, if any. */
  function FindRecord(records: seq<BorrowRecord>, id: int): (r: Option<BorrowRecord>)
    ensures r.None? <==> forall i :: 0 <= i < |records| ==> records[i].id != id
    ensures r.Some? ==> r.value in records && r.value.id == id
  {
    FirstWhere(records, (br: BorrowRecord) => br.id == id)
  }

  predicate BookExists(books: seq<Book>, id: int) {
    exists i | 0 <= i < |books| :: books[i].id == id
  }

  predicate UserExists(users: seq<User>, id: int) {
    exists i | 0 <= i < |users| :: users[i].id == id
  }
}
