# Library analytics, modelled in Dafny

This project models the query logic of a small library system. The system keeps
three tables: books (id, title, total copies, pages), users (id, name) and
borrow records (id, book id, user id, borrow date, optional return date). Every
query is a read-only function of a snapshot of the tables.

The model has three parts:

- **The analytics service** (`LibraryCoreService`). Six queries: the ten most
  borrowed books, the availability of a book, the top ten borrowers of a date
  window, the books a user borrowed in a window, the books borrowed alongside a
  book, and the reading rate of one loan. The most-borrowed query always answers
  a list. Each of the other five answers `Ok`, `NotFound` or `InvalidArgument`,
  and every error carries the service's own message text.
- **The warm-up helpers** (`LibraryWarmups`):
  - a power-of-two test, as a function;
  - title reversal, title replication and the odd-id listing, as methods with
    loops proved against specification functions.
- **The older gRPC service** (`LegacyLibraryService`). It answers the same
  questions with different rules:
  - it has no error statuses: where nothing matches, the list queries answer an
    empty list and the reading rate answers zero;
  - it still fails where its code throws: the availability of an unknown book
    dereferences a missing row, and a malformed date string makes
    `DateTime.Parse` throw (neither failure is modelled; see below);
  - it groups and joins borrow records;
  - its records use `borrowedAt`/`returnedAt`;
  - it averages loan lengths for the reading rate, without the extra day.

  It is a separate module with its own entity types.

Shared building blocks:

- `Collections` models the LINQ operators the queries are written with:
  `Count`, `Where`, `Select`, `Distinct`, `FirstOrDefault`, `Join` and `Sum`.
- `Ranking` models `OrderByDescending(key).Take(n)`.
- `Text` turns ids into decimal text for the error messages.

Dates are whole day numbers, and a window `[start, end]` includes both ends.
The store is a datatype of three sequences. A navigation property
(`book.BorrowRecords`, `record.Book`) is a lookup by foreign key. The database
is not part of this model.

## Model

| member | source | states |
|---|---|---|
| Collections.Count | Library.Application/Services/LibraryCoreService.cs:52 | the count is at most the length, and is zero exactly when no element passes |
| Collections.CountIsMatchingSize | Library.Application/Services/LibraryCoreService.cs:52 | the count equals the number of indices whose element passes |
| Collections.Filter | Library.Application/Services/LibraryCoreService.cs:68 | `Where` keeps exactly the passing elements, as a sub-multiset, with each passing value's multiplicity unchanged |
| Collections.FirstWhere | Library.Application/Services/LibraryCoreService.cs:47 | `FirstOrDefault` finds nothing exactly when no element passes; otherwise it finds the first one |
| Collections.Project | Library.Application/Services/LibraryCoreService.cs:95 | `Select` keeps the length and maps each position |
| Collections.ProjectMembership | Library.Application/Services/LibraryCoreService.cs:119 | a value is selected exactly when some element maps to it |
| Collections.Distinct | Library.Application/Services/LibraryCoreService.cs:96 | `Distinct` has no duplicates, the same members, and is no longer than its input |
| Collections.NoDuplicatesCardinality | Library.Application/Services/LibraryCoreService.cs:96 | a duplicate-free sequence is as long as its set of members |
| Collections.CountFiltered | GrpcService1/Services/LibraryService.cs:58-60 | counting a key inside a `Where` counts the records that pass both tests |
| Collections.UniqueIdsCount | GrpcService1/Services/LibraryService.cs:25 | with unique ids, at most one row has a given id |
| Collections.Matches | GrpcService1/Services/LibraryService.cs:25 | the join rows of one key are exactly the rows with that id, each paired with the key |
| Collections.Join | GrpcService1/Services/LibraryService.cs:25 | `Join` pairs a key with a row exactly when the key is listed and the row has that id |
| Collections.JoinSize | GrpcService1/Services/LibraryService.cs:24-25 | with unique row ids, a join has at most as many rows as keys |
| Collections.JoinKeepsKeyOrder | GrpcService1/Services/LibraryService.cs:23-25 | a join follows the order of its keys, so keys ranked by a score stay ranked |
| Collections.FilterKeepsUniqueIds | GrpcService1/Services/LibraryService.cs:87 | `Where` keeps ids unique |
| Collections.FilterExtensional | GrpcService1/Services/LibraryService.cs:112 | `Where` with two equivalent tests gives the same sequence |
| Collections.Sum | GrpcService1/Services/LibraryService.cs:132 | `Sum` is never negative when no term is, and is at least the number of terms when every term is positive |
| Ranking.Insert | Library.Application/Services/LibraryCoreService.cs:32 | inserting into a ranked sequence keeps it ranked and adds exactly that element |
| Ranking.SortDescending | Library.Application/Services/LibraryCoreService.cs:32 | `OrderByDescending` gives a permutation whose keys never increase |
| Ranking.Top | Library.Application/Services/LibraryCoreService.cs:32-33 | `OrderByDescending(key).Take(n)` has min(n, length) elements, ranked, drawn from the input; it is all of the input when that fits, and every element left out ranks at most as high as every element kept |
| Ranking.TopIsPrefix | Library.Application/Services/LibraryCoreService.cs:33 | a prefix of a ranked sequence is drawn from it, and nothing it leaves out ranks above anything it keeps |
| Ranking.TopOutranksRest | Library.Application/Services/LibraryCoreService.cs:32-33 | no element left out outranks an element kept |
| Ranking.TopOfFilteredPasses | Library.Application/Services/LibraryCoreService.cs:68-70 | ranking after a `Where` returns only elements of the input that pass it |
| Ranking.TopOfFilteredKeepsLargest | Library.Application/Services/LibraryCoreService.cs:68-70 | when failing elements score zero, an element outside the ranking scores at most as much as every ranked one |
| Ranking.TopOfFilteredOutranksRest | Library.Application/Services/LibraryCoreService.cs:68-70 | the same, for any element of the unfiltered input that is not ranked |
| Ranking.TopOfFilteredComplete | Library.Application/Services/LibraryCoreService.cs:68-70 | when fewer than n are ranked, every passing element is ranked |
| Text.NatToString | Library.Application/Services/LibraryCoreService.cs:91 | decimal text is non-empty, all digits, one digit exactly for values below ten, and has no leading zero |
| Text.IntToString | Library.Application/Services/LibraryCoreService.cs:91 | the text is non-empty, starts with a minus sign exactly for negative values, is all decimal digits after that sign, and has no leading zero (after the sign) unless the value is zero |
| Text.DigitChar | Library.Application/Services/LibraryCoreService.cs:91 | the character of a digit is a digit character that stands for that digit |
| Text.NatToStringValue | Library.Application/Services/LibraryCoreService.cs:91 | the decimal digits of n denote n |
| Text.IntToStringValue | Library.Application/Services/LibraryCoreService.cs:91 | the text of i, an optional minus sign followed by decimal digits only, denotes i |
| Entities.FindBook | Library.Application/Services/LibraryCoreService.cs:45-47 | the lookup fails exactly when no book has the id; otherwise it is a stored book with that id |
| Entities.FindBookUnique | Library.Application/Services/LibraryCoreService.cs:47 | a book whose id no other book shares is what its id finds |
| Entities.FindRecord | Library.Application/Services/LibraryCoreService.cs:146-148 | the lookup fails exactly when no record has the id; otherwise it is a stored record with that id |
| LibraryCoreService.BorrowCount | Library.Application/Services/LibraryCoreService.cs:32 | `b.BorrowRecords.Count` is at most the number of records, and zero exactly when no record refers to the book |
| LibraryCoreService.OutstandingCount | Library.Application/Services/LibraryCoreService.cs:52 | the copies out are zero exactly when every record of the book has a return date |
| LibraryCoreService.BorrowCountIsRecordCount | Library.Application/Services/LibraryCoreService.cs:32 | a book's borrow count is the number of records that refer to it |
| LibraryCoreService.OutstandingCountIsUnreturnedRecords | Library.Application/Services/LibraryCoreService.cs:52 | the borrowed count is the number of the book's records without a return date, and at most its borrow count |
| LibraryCoreService.InRangeCount | Library.Application/Services/LibraryCoreService.cs:68-69 | a user's in-window count is positive exactly when the user has a record dated in the window |
| LibraryCoreService.InRangeCountIsWindowRecords | Library.Application/Services/LibraryCoreService.cs:69 | the in-window count is the number of the user's records with start <= date <= end |
| LibraryCoreService.GetMostBorrowedBooks | Library.Application/Services/LibraryCoreService.cs:29-35 | exactly min(10, number of books) books, by non-increasing borrow count, never an error |
| LibraryCoreService.MostBorrowedBooksAreTheTop | Library.Application/Services/LibraryCoreService.cs:31-34 | the result is drawn from the books; it is all of them when there are at most ten; no book left out was borrowed more often than one returned |
| LibraryCoreService.GetBookAvailability | Library.Application/Services/LibraryCoreService.cs:43-56 | NotFound "Book not found." exactly for an unknown id, never InvalidArgument; borrowed = the book's records without a return date; available = total copies − borrowed, not clamped |
| LibraryCoreService.GetTopBorrowers | Library.Application/Services/LibraryCoreService.cs:65-77 | NotFound with its message exactly when no user has a record in the window; otherwise 1 to 10 users by non-increasing in-window count |
| LibraryCoreService.TopBorrowersBorrowedInRange | Library.Application/Services/LibraryCoreService.cs:68 | every returned user is a stored user with a record dated in the inclusive window |
| LibraryCoreService.RankBorrowers | Library.Application/Services/LibraryCoreService.cs:67-71 | at most ten users, each a stored user with an in-window record, ranked by the in-window count |
| LibraryCoreService.RankedBorrowersEmpty | Library.Application/Services/LibraryCoreService.cs:68-74 | the ranking is empty exactly when no stored user has an in-window record |
| LibraryCoreService.RankedBorrowersByCount | Library.Application/Services/LibraryCoreService.cs:69 | ranked users come by non-increasing in-window record count |
| LibraryCoreService.RankedBorrowersOutrankTheRest | Library.Application/Services/LibraryCoreService.cs:69-70 | every user left out of the ranking has at most as many in-window records as every ranked user |
| LibraryCoreService.TopBorrowersOutrankTheRest | Library.Application/Services/LibraryCoreService.cs:67-71 | no user left out of a successful answer has more in-window records than a returned user |
| LibraryCoreService.TopBorrowersComplete | Library.Application/Services/LibraryCoreService.cs:68-70 | when fewer than ten users are returned, every user with an in-window record is among them |
| LibraryCoreService.InvertedRangeHasNoTopBorrowers | Library.Application/Services/LibraryCoreService.cs:73-74 | a window whose start is after its end gives NotFound with the top-borrowers message |
| LibraryCoreService.BooksOf | Library.Application/Services/LibraryCoreService.cs:95 | a book is selected exactly when some given record resolves to it |
| LibraryCoreService.ResolvedBooksHaveDistinctIds | Library.Application/Services/LibraryCoreService.cs:96 | distinct books that are each their own id's lookup have distinct ids |
| LibraryCoreService.DistinctBooksOf | Library.Application/Services/LibraryCoreService.cs:95-96 | `Select(br => br.Book).Distinct()` has no duplicates, distinct ids, and exactly the resolved books |
| LibraryCoreService.NoResolvedBooks | Library.Application/Services/LibraryCoreService.cs:99 | no books are resolved exactly when no record refers to an existing book |
| LibraryCoreService.UserMessagesDiffer | Library.Application/Services/LibraryCoreService.cs:91-100 | the two user-query messages differ |
| LibraryCoreService.GetUserBorrowedBooks | Library.Application/Services/LibraryCoreService.cs:87-103 | "User with ID {id} not found." exactly for an unknown user; "No books found for user {id} ..." exactly for a known user none of whose in-window records names a stored book; never InvalidArgument; Ok is non-empty |
| LibraryCoreService.UserBorrowedBooksExact | Library.Application/Services/LibraryCoreService.cs:93-97 | a successful answer holds each book the user borrowed in the window exactly once, and nothing else |
| LibraryCoreService.BorrowedWithMessagesDiffer | Library.Application/Services/LibraryCoreService.cs:115-133 | the three messages of the companion query are pairwise different |
| LibraryCoreService.BorrowersOf | Library.Application/Services/LibraryCoreService.cs:117-121 | the borrowers of a book, each once: exactly the users with a record of it |
| LibraryCoreService.GetBooksBorrowedWith | Library.Application/Services/LibraryCoreService.cs:111-136 | "Book with ID {id} not found." exactly for an unknown book; "No borrow records found ..." exactly for a known book nobody borrowed; never InvalidArgument; Ok is non-empty |
| LibraryCoreService.NoAssociatedBooksWhenNothingAlongside | Library.Application/Services/LibraryCoreService.cs:132-133 | "No associated books found ..." exactly when the book exists and was borrowed, but none of its borrowers' records of other books names a stored book |
| LibraryCoreService.AlongsideBooksExact | Library.Application/Services/LibraryCoreService.cs:126-130 | the resolved books of the borrowers' other records are exactly the books borrowed alongside, never the queried one |
| LibraryCoreService.BooksBorrowedWithExact | Library.Application/Services/LibraryCoreService.cs:126-135 | a successful answer has no duplicates, distinct ids, never the queried id, and exactly the books some co-borrower borrowed |
| LibraryCoreService.ElapsedDays | Library.Application/Services/LibraryCoreService.cs:159 | the inclusive day count is positive exactly when the return is not before the borrow, and one exactly for a same-day return |
| LibraryCoreService.PagesPerDay | Library.Application/Services/LibraryCoreService.cs:164 | the rate times the day count is the page count, and the rate lies in (0, pages] |
| LibraryCoreService.EstimateReadingRate | Library.Application/Services/LibraryCoreService.cs:144-165 | errors in the source's order, each exactly in its case: unknown record; no return date; missing book or pages <= 0; inclusive day count <= 0 |
| LibraryCoreService.ReadingRateSpreadsPages | Library.Application/Services/LibraryCoreService.cs:159-164 | a rate exists only for a returned loan with borrow <= return and positive pages, and is the pages spread over the inclusive day count |
| LibraryCoreExamples.AlongsideBookOne | Library.Application.UnitTests/TestData/BooksBorrowedWithTestData.cs:9-30 | in the co-borrow fixture, books 2 and 3 are exactly the books borrowed alongside book 1 |
| LibraryCoreExamples.CoBorrowQuerySucceeds | Library.Application.UnitTests/TestData/BooksBorrowedWithTestData.cs:9-30 | querying book 1 of that fixture succeeds |
| LibraryCoreExamples.BooksBorrowedWithExample | Library.Application.UnitTests/TestData/BooksBorrowedWithTestData.cs:9-30 | and returns exactly two books, books 2 and 3 |
| LibraryCoreExamples.UnknownBookExample | Library.Application.UnitTests/TestData/BooksBorrowedWithTestData.cs:36-46 | no books: "Book with ID 1 not found." |
| LibraryCoreExamples.NeverBorrowedExample | Library.Application.UnitTests/TestData/BooksBorrowedWithTestData.cs:48-55 | book 1 with no records: "No borrow records found for book ID 1." |
| LibraryCoreExamples.NothingAlongsideExample | Library.Application.UnitTests/TestData/BooksBorrowedWithTestData.cs:57-68 | book 1 whose only borrower borrowed nothing else: "No associated books found with book ID 1." |
| LibraryCoreExamples.ReadingRateExample | Library.Application.UnitTests/TestData/EstimateReadingRateTestData.cs:10-28 | 150 pages, borrowed on day 0 and returned on day 5: 25 pages a day |
| LibraryCoreExamples.TenDayReadingRateExample | Library.Application.IntegrationTests/LibraryCoreServiceIntegrationTests.cs:121-129 | 900 pages over ten days: 90 pages a day |
| LibraryCoreExamples.SameDayReadingRateExample | Library.Application/Services/LibraryCoreService.cs:159 | a same-day return counts as one day, so the rate is the page count |
| LibraryCoreExamples.ReturnBeforeBorrowExample | Library.Application.UnitTests/TestData/EstimateReadingRateTestData.cs:33-52 | returned the day before borrowing: "Return date must be after borrow date." |
| LibraryCoreExamples.NotReturnedExample | Library.Application.UnitTests/TestData/EstimateReadingRateTestData.cs:54-73 | not returned: "Return date is required." |
| LibraryCoreExamples.AvailabilityExample | Library.Application.Tests/TestData/BookAvailabilityTestData.cs:8-24 | five copies, two of three loans outstanding: two borrowed, three available |
| LibraryCoreExamples.NoLoansAvailabilityExample | Library.Application.Tests/TestData/BookAvailabilityTestData.cs:26-37 | three copies, no loans: none borrowed, three available |
| LibraryWarmups.BitAnd | Library.Application/LibraryWarmups.cs:10 | `a & b` on non-negative numbers never exceeds either operand |
| LibraryWarmups.Pow2IsPowerOfTwo | Library.Application/LibraryWarmups.cs:10 | every power 2^k passes the reference predicate |
| LibraryWarmups.PowerOfTwoIsPow2 | Library.Application/LibraryWarmups.cs:10 | the bit test's reference predicate holds exactly for the powers 2^k |
| LibraryWarmups.ClearLowestBit | Library.Application/LibraryWarmups.cs:10 | for n > 0, `n & (n - 1) == 0` exactly when n is a power of two |
| LibraryWarmups.IsPowerOfTwo | Library.Application/LibraryWarmups.cs:8-11 | true exactly when the id is positive and equals 2^k for some k >= 0 |
| LibraryWarmups.IsPowerOfTwoExamples | Library.Application.Tests/LibraryWarmupsTests.cs:8-16 | 1, 2, 4 and 16 pass; 3, 0, -2 and 18 fail |
| LibraryWarmups.Reverse | Library.Application/LibraryWarmups.cs:20-25 | the reversal has the same length |
| LibraryWarmups.ReverseAt | Library.Application/LibraryWarmups.cs:21-24 | position i of the reversal holds position len-1-i of the input |
| LibraryWarmups.ReverseInvolution | Library.Application/LibraryWarmups.cs:21-24 | reversing twice gives the input back |
| LibraryWarmups.ReverseTitle | Library.Application/LibraryWarmups.cs:16-26 | a null title stays null; otherwise the loop builds the reversal |
| LibraryWarmups.ReverseExamples | Library.Application.Tests/LibraryWarmupsTests.cs:29-33 | "abc" to "cba", "Book" to "kooB", "" to "" |
| LibraryWarmups.RepeatLength | Library.Application/LibraryWarmups.cs:35-40 | count copies of a title are count times its length long |
| LibraryWarmups.RepeatAt | Library.Application/LibraryWarmups.cs:35-40 | character j of copy k sits at k*len+j |
| LibraryWarmups.GenerateReplicas | Library.Application/LibraryWarmups.cs:31-41 | "" when the count is <= 0 or the title is null or empty; otherwise the loop builds count copies |
| LibraryWarmups.RepeatExamples | Library.Application.Tests/LibraryWarmupsTests.cs:46-52 | "Book" three times, "A" five times |
| LibraryWarmups.ListOddBookIds | Library.Application/LibraryWarmups.cs:46-52 | emits 50 values, the k-th being 2k+1: exactly the odd numbers from 1 to 100 |
| LegacyLibraryService.GroupKeys | GrpcService1/Services/LibraryService.cs:22 | the group keys of `GroupBy`, each once: exactly the keys of some record |
| LegacyLibraryService.GroupsAreNotEmpty | GrpcService1/Services/LibraryService.cs:22-23 | every group has at least one record |
| LegacyLibraryService.RankedBookGroups | GrpcService1/Services/LibraryService.cs:22-24 | at most ten book ids, each a group key, by non-increasing group size |
| LegacyLibraryService.BookRowsOfJoin | GrpcService1/Services/LibraryService.cs:25-30 | each joined row is a stored book (id and title) whose id is a key, with that key's group size |
| LegacyLibraryService.GetMostBorrowedBooks | GrpcService1/Services/LibraryService.cs:19-36 | every row names a stored book, with a borrow count equal to its number of records, never zero |
| LegacyLibraryService.MostBorrowedAtMostTen | GrpcService1/Services/LibraryService.cs:24 | with unique book ids, at most ten rows |
| LegacyLibraryService.MostBorrowedRanked | GrpcService1/Services/LibraryService.cs:23 | rows come by non-increasing borrow count |
| LegacyLibraryService.RankedBookIsListed | GrpcService1/Services/LibraryService.cs:23-25 | a stored book among the ten largest groups gets a row |
| LegacyLibraryService.MostBorrowedOutrankTheRest | GrpcService1/Services/LibraryService.cs:23-24 | a borrowed stored book without a row was borrowed no more often than any listed book |
| LegacyLibraryService.MostBorrowedComplete | GrpcService1/Services/LibraryService.cs:22-25 | when at most ten books were ever borrowed, every borrowed stored book gets a row |
| LegacyLibraryService.BookGroupSizeIsRecordCount | GrpcService1/Services/LibraryService.cs:29 | a book's group size is the number of records of that book |
| LegacyLibraryService.FindBook | GrpcService1/Services/LibraryService.cs:40 | the lookup fails exactly when no book has the id; otherwise it is a stored book with that id |
| LegacyLibraryService.GetBookAvailability | GrpcService1/Services/LibraryService.cs:38-50 | borrowed = the book's records without a return time; available = total − borrowed; total is a stored book's copies |
| LegacyLibraryService.RankedUserGroups | GrpcService1/Services/LibraryService.cs:58-61 | at most ten user ids, each a key of the in-window groups, by non-increasing group size |
| LegacyLibraryService.UserRowsOfJoin | GrpcService1/Services/LibraryService.cs:62-67 | each joined row is a stored user (id and name) whose id is a key, with that key's group size |
| LegacyLibraryService.GetTopBorrowers | GrpcService1/Services/LibraryService.cs:52-73 | every row names a stored user, with a borrow count equal to their number of in-window records, never zero |
| LegacyLibraryService.UserGroupSizeIsWindowCount | GrpcService1/Services/LibraryService.cs:58-66 | that count is the number of the user's records with start <= borrowedAt <= end |
| LegacyLibraryService.TopBorrowersAtMostTen | GrpcService1/Services/LibraryService.cs:61 | with unique user ids, at most ten rows |
| LegacyLibraryService.TopBorrowersRanked | GrpcService1/Services/LibraryService.cs:60 | rows come by non-increasing in-window count |
| LegacyLibraryService.RankedUserIsListed | GrpcService1/Services/LibraryService.cs:60-62 | a stored user among the ten largest in-window groups gets a row |
| LegacyLibraryService.TopBorrowersOutrankTheRest | GrpcService1/Services/LibraryService.cs:60-61 | a stored user with in-window records but no row has no more of them than any listed user |
| LegacyLibraryService.TopBorrowersComplete | GrpcService1/Services/LibraryService.cs:58-62 | when at most ten users borrowed in the window, every such stored user gets a row |
| LegacyLibraryService.InvertedWindowHasNoBorrowers | GrpcService1/Services/LibraryService.cs:58 | a window whose start is after its end gives an empty list, not an error |
| LegacyLibraryService.HistoryBookIds | GrpcService1/Services/LibraryService.cs:80-84 | the distinct ids are exactly the books the user borrowed in the window |
| LegacyLibraryService.ListedMembership | GrpcService1/Services/LibraryService.cs:86-89 | the listed rows are exactly the listings of the stored books that pass |
| LegacyLibraryService.ListedUniqueIds | GrpcService1/Services/LibraryService.cs:86-89 | listing books with unique ids gives rows with unique ids |
| LegacyLibraryService.GetUserBorrowHistory | GrpcService1/Services/LibraryService.cs:75-94 | the rows are exactly the stored books the user borrowed in the window, with a zero borrow count |
| LegacyLibraryService.UserBorrowHistoryUnique | GrpcService1/Services/LibraryService.cs:83-88 | with unique book ids, no book is listed twice |
| LegacyLibraryService.UnknownUserHasNoHistory | GrpcService1/Services/LibraryService.cs:81 | a user without records gets an empty list |
| LegacyLibraryService.BorrowersOf | GrpcService1/Services/LibraryService.cs:98-102 | the borrowers of a book, each once: exactly the users with a record of it |
| LegacyLibraryService.CoRecordsAreCoBorrowed | GrpcService1/Services/LibraryService.cs:104-106 | the book ids of the borrowers' other records are exactly the books co-borrowed with the requested one |
| LegacyLibraryService.AlsoBorrowedIds | GrpcService1/Services/LibraryService.cs:104-109 | the grouped, frequency-ordered ids are exactly the co-borrowed book ids |
| LegacyLibraryService.GetAlsoBorrowedBooks | GrpcService1/Services/LibraryService.cs:96-119 | the rows are exactly the stored books co-borrowed with the requested one, never the requested book itself |
| LegacyLibraryService.AlsoBorrowedInStoreOrder | GrpcService1/Services/LibraryService.cs:111-114 | the answer is the co-borrowed books in store order: the frequency order of the ids does not survive the final `Where` |
| LegacyLibraryService.NeverBorrowedHasNoCompanions | GrpcService1/Services/LibraryService.cs:98-105 | a book nobody borrowed gets an empty list |
| LegacyLibraryService.LoanDays | GrpcService1/Services/LibraryService.cs:132 | a loan contributes zero days exactly when it is unreturned or returned on its borrow day, and negative days exactly when returned before it was borrowed |
| LegacyLibraryService.PagesOverMean | GrpcService1/Services/LibraryService.cs:132-135 | the rate times the total loan days is the pages times the number of loans, i.e. rate × mean days = pages |
| LegacyLibraryService.GetReadingRate | GrpcService1/Services/LibraryService.cs:121-136 | zero without returned loans or without the book; not finite exactly when the mean loan length is zero; otherwise pages over the mean (return − borrow, no extra day) |
| LegacyLibraryService.ReadingRateExample | GrpcService1/Services/LibraryService.cs:132-135 | 150 pages borrowed on day 0 and returned on day 5: 30 pages a day, where the main service says 25 |

## Left out

- Storage and hosting are not modelled: async tasks, Entity Framework, `Include` and lazy loading, the gRPC and HTTP adapters, dependency injection.
- A query's input is an immutable snapshot of the three tables. Concurrent updates are not modelled.
- Dates are whole day numbers.
  - `DateTime` values, time of day, and `DateTime.Parse` of the older service's string dates are not modelled. A malformed date string, which makes `DateTime.Parse` throw, has no counterpart.
  - `TimeSpan.TotalDays` is therefore always a whole number.
- Rates are exact `real` numbers. IEEE `double` rounding is not modelled, nor is the `(float)` cast of the older service.
- Integers are unbounded. No 32-bit overflow arises in the queries' arithmetic for realistic table sizes, so no wrap-around is modelled.
- Ties under `OrderByDescending` are not modelled. The contracts promise only non-increasing counts, membership and "top-ness", never the order among equal counts.
- `ListOddBookIds` writes to the console. The model returns the sequence of values written.
- A borrow record whose book or user is missing (a dangling foreign key) resolves to nothing and is dropped. The relational schema rules such records out.
- `Distinct` over books compares book values rather than primary keys. For books resolved through one id lookup, the two coincide, which `LibraryCoreService.ResolvedBooksHaveDistinctIds` proves.
- A lookup by id (`FindAsync`, `FirstOrDefault`) returns the first stored row with that id. Lemmas that need unique ids take them as a precondition.
- LegacyLibraryService.GetBookAvailability: requires the book to exist. The source dereferences a missing book and throws a null-reference exception, which is not modelled.
- LegacyLibraryService.GetReadingRate:
  - it computes pages × count / total days, which equals pages / (total days / count) in exact arithmetic;
  - a zero mean, which yields infinity or NaN in `double`, is the single value `NotFinite`.
- LibraryWarmups.ReverseTitle: titles are sequences of Unicode scalar values, not UTF-16 code units. A title with a character outside the Basic Multilingual Plane (an emoji, say) is reversed character by character here. The source reverses its code units, so the surrogate pair ends up swapped. A C# string with a lone surrogate cannot be written in the model.
- LibraryWarmups.GenerateReplicas: lengths count Unicode scalar values, not UTF-16 code units, for the same reason.
- LibraryCoreService.ReadingRateSpreadsPages: states that the rate is `PagesPerDay` of the inclusive day count. The arithmetic facts (rate × days = pages, 0 < rate ≤ pages) are stated once, in the contract of `LibraryCoreService.PagesPerDay`.
