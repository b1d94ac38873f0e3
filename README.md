# Library loan bookkeeping in Dafny

This project models the bookkeeping core of a library system's `DatabaseService`. The core covers:

- checking books out to a borrower;
- checking a returned book in;
- adding books and their authors to the catalog;
- merging the results of a catalog search.

The four repositories (books by ISBN, borrowers by card id, the loan table, authors by name) are one value, `Entities.Db`. Entities refer to each other by key. A book and a borrower list the ids of their loans, and a loan's id is its position in the loan table. An author lists the ISBNs of its books.

Modules:

- `Entities` holds the stored records, the constants and the invariants the bookkeeping keeps:
  - `Valid`: keys and cross-references agree;
  - `OnLoanUnavailable`: a book with an outstanding loan is not marked available;
  - `WithinCap`: no borrower has more than 3 outstanding loans.
- `Lending` holds checkout, handleCheckout and checkin as functions of the database, with the lemmas about them.
- `Catalog` holds getOrCreateAuthor(s), checkAndAddBook, saveBook, addBook, addBooks and getBooksForSearchQuery.
- `Service.DatabaseService` is a class with the four repositories as fields. Its methods update them in place, step by step as the source does. Each method is proved to end in the state the matching `Lending` or `Catalog` function gives. `Checkout`, `Checkin`, `AddBook` and `AddBooks` are also proved to keep `Invariants`. The two helper methods `HandleCheckout` and `SaveBook` are not: they are called only after their callers' checks, and each is proved equal to its function, whose invariant lemmas the callers use. `SaveBook` on an ISBN that is already stored replaces that book's entry, loans included; `AddBook` calls it only for a new ISBN.

Three behaviours of the code are worth stating, since they are easy to assume otherwise:

- `checkin` records the return date but never marks the book available again (DatabaseService.java:195-206). `Lending.CheckinKeepsBookOut` shows the consequence: the returned book cannot be checked out again.
- A request that names one available ISBN twice is not rejected. It produces two loans of that book (`Lending.CheckoutKeepsRepeatedIsbn`).
- The loan limit counts only the requested books found available (:146-147). Any missing book still fails the size check (:149), so the boolean result is what `Lending.Checkout` states.

## Model

| member | source | states |
|---|---|---|
| Entities.Outstanding | src/main/java/com/librarysystem/services/DatabaseService.java:146-147 | counts the listed loans that have no return date; never more than the number listed |
| Lending.FoundAvailable | src/main/java/com/librarysystem/services/DatabaseService.java:139-144 | only stored, available ISBNs; as many as requested exactly when every requested book is stored and available, and then equal to the request |
| Lending.FoundAvailableFilters | src/main/java/com/librarysystem/services/DatabaseService.java:139-144 | the result is a subsequence of the request (request order) that contains every occurrence of each stored, available ISBN (repeats kept) and no other ISBN |
| Lending.CheckoutAllowed | src/main/java/com/librarysystem/services/DatabaseService.java:135-151 | the three checks pass exactly when the borrower exists, every requested book is stored and available, and outstanding loans plus requested books are at most 3 |
| Entities.NewLoan | src/main/java/com/librarysystem/services/DatabaseService.java:159-165 | the loan built for one book: of that ISBN to that card, out at now, not returned, and due exactly 14 × 86 400 000 ms after it went out; `Lending.CheckoutSucceeds` and `Lending.OpenLoansLedger` state that checkout records exactly these loans |
| Lending.OpenLoan | src/main/java/com/librarysystem/services/DatabaseService.java:162-167 | one iteration keeps the sets of books and borrowers and the authors, and appends that loan to the table; `Lending.OpenLoansBooks` and `Lending.OpenLoansBorrowers` state its effect on the book and the borrower, and `Lending.OpenLoanPreserves` that it keeps the invariants |
| Lending.OpenLoans | src/main/java/com/librarysystem/services/DatabaseService.java:158-168 | recording the loans keeps the set of books and borrowers and the authors, and adds one loan-table row per requested ISBN |
| Lending.Checkout | src/main/java/com/librarysystem/services/DatabaseService.java:135-155 | returns true exactly when the borrower exists, every requested ISBN is stored and available, and the limit of 3 holds; on false nothing changes (all-or-nothing) |
| Lending.IdsOfSingle | src/main/java/com/librarysystem/services/DatabaseService.java:161-165 | an ISBN that occurs once in the request, whatever else is repeated there, gets exactly the one loan id of its request position |
| Lending.OpenLoansLedger | src/main/java/com/librarysystem/services/DatabaseService.java:159-163 | the loan table keeps its rows; request position j gains a loan of that ISBN to the borrower, out at now, due now + 14 days, not returned |
| Lending.OpenLoansBorrowers | src/main/java/com/librarysystem/services/DatabaseService.java:166 | the borrower's loan list is its old list plus the new ids in order; other borrowers are unchanged |
| Lending.OpenLoansBooks | src/main/java/com/librarysystem/services/DatabaseService.java:162-165 | each requested book becomes unavailable and its loan list gains one new id per time it is requested; other books are unchanged |
| Lending.OpenLoansOutstanding | src/main/java/com/librarysystem/services/DatabaseService.java:146-147 | recording the loans raises the borrower's outstanding count by exactly the number of requested books |
| Lending.OpenLoanPreserves | src/main/java/com/librarysystem/services/DatabaseService.java:162-168 | lending one book keeps the structural invariants, and keeps every book with an outstanding loan unavailable |
| Lending.CheckoutSucceeds | src/main/java/com/librarysystem/services/DatabaseService.java:135-168 | after a successful checkout: the borrower's outstanding count is the old count plus the number requested, and at most 3; every requested book is unavailable; old loans are unchanged; each new loan is out at now, due now + 14 × 86 400 000 ms and not returned; the borrower's list gains the new ids |
| Lending.CheckoutOneLoanPerBook | src/main/java/com/librarysystem/services/DatabaseService.java:165 | with no repeated ISBN, each requested book's loan list gains exactly its own new loan and keeps its old loans |
| Lending.CheckoutKeepsRepeatedIsbn | src/main/java/com/librarysystem/services/DatabaseService.java:139-153 | a request naming an available ISBN twice succeeds when the borrower has room, and that book gains two loans |
| Lending.CheckoutPreservesInvariants | src/main/java/com/librarysystem/services/DatabaseService.java:135-168 | checkout, whatever its result, keeps the structural invariants, the unavailability of lent books and the cap of 3 outstanding loans per borrower |
| Lending.CheckoutKeepsCap | src/main/java/com/librarysystem/services/DatabaseService.java:146-147 | after a successful checkout every borrower, the one served and all others, still has at most 3 outstanding loans |
| Lending.OpenLoansOtherCount | src/main/java/com/librarysystem/services/DatabaseService.java:158-168 | recording loans for one borrower leaves every other borrower's outstanding count as it was |
| Lending.FirstOpenLoan | src/main/java/com/librarysystem/services/DatabaseService.java:197-201 | finds no loan exactly when none of the looked-up loans has this ISBN, no return date and this borrower; otherwise the position of the first such loan |
| Lending.Checkin | src/main/java/com/librarysystem/services/DatabaseService.java:195-206 | succeeds exactly when some loan has exactly this ISBN, no return date and this card id; on failure nothing changes; books, borrowers and authors are never changed |
| Lending.CheckinClosesFirstMatch | src/main/java/com/librarysystem/services/DatabaseService.java:197-204 | a successful checkin sets the return date to now on exactly one loan, the first matching one in lookup order; every other loan is unchanged |
| Lending.RepeatCheckinFails | src/main/java/com/librarysystem/services/DatabaseService.java:195-205 | when the book and borrower have a single outstanding loan, the first checkin succeeds and a second one fails |
| Lending.CheckinPreservesInvariants | src/main/java/com/librarysystem/services/DatabaseService.java:195-206 | checkin keeps the structural invariants, the unavailability of lent books and the cap |
| Lending.CheckinKeepsBookOut | src/main/java/com/librarysystem/services/DatabaseService.java:202-205 | after a successful checkin the book is still unavailable, so any checkout that requests it fails |
| Catalog.GetOrCreateAuthor | src/main/java/com/librarysystem/services/DatabaseService.java:84-87 | the stored author of that name if there is one; otherwise a new author of that name with no books |
| Catalog.GetOrCreateAuthors | src/main/java/com/librarysystem/services/DatabaseService.java:79-82 | one author per name, in order, each with the name it was asked for, all looked up before anything is saved |
| Catalog.CheckAndAddBook | src/main/java/com/librarysystem/services/DatabaseService.java:67-71 | the author then lists the ISBN; its books are its old books plus that ISBN, appended only if absent; a duplicate-free list stays duplicate-free |
| Catalog.CheckAndAddBookIdempotent | src/main/java/com/librarysystem/services/DatabaseService.java:67-71 | a second checkAndAddBook with the same ISBN changes nothing |
| Catalog.SaveAuthorsKeyed | src/main/java/com/librarysystem/services/DatabaseService.java:55-58 | saving the book's authors keeps authors keyed by name with duplicate-free ISBN lists, and drops no author |
| Catalog.SaveAuthorsSaved | src/main/java/com/librarysystem/services/DatabaseService.java:53-58 | every author of the book is stored with the book's ISBN added to its books as they were looked up |
| Catalog.SaveAuthorsOthers | src/main/java/com/librarysystem/services/DatabaseService.java:55-58 | authors that are not among the book's authors are unchanged |
| Catalog.SaveAuthors | src/main/java/com/librarysystem/services/DatabaseService.java:55-58 | the loop over the book's authors drops no author; `Catalog.SaveAuthorsSaved`, `Catalog.SaveAuthorsOthers` and `Catalog.SaveAuthorsKeyed` state its effect on saved and unsaved authors |
| Catalog.SaveBook | src/main/java/com/librarysystem/services/DatabaseService.java:50-60 | stores the book's entry under its ISBN, with no loans, leaving other books, loans and borrowers as they were, and drops no author; `Catalog.SaveBookFilesAuthors` states that the book's authors then list it |
| Catalog.SaveBookFilesAuthors | src/main/java/com/librarysystem/services/DatabaseService.java:50-60 | after saving a new book, every author of every stored book is stored and lists that book |
| Catalog.AddBook | src/main/java/com/librarysystem/services/DatabaseService.java:113-116 | an ISBN already stored: the stored book is returned and nothing changes; otherwise the book is stored with no loans and returned; loans and borrowers never change |
| Catalog.AddBookTwice | src/main/java/com/librarysystem/services/DatabaseService.java:113-116 | adding the same book again returns the same stored book and changes nothing |
| Catalog.AddBookPreservesInvariants | src/main/java/com/librarysystem/services/DatabaseService.java:113-116 | addBook keeps every invariant, including each ISBN appearing at most once per author |
| Catalog.AddBooks | src/main/java/com/librarysystem/services/DatabaseService.java:118-121 | addBook on each book in order: loans and borrowers unchanged and no book dropped; `Catalog.AddBooksEffect`, `Catalog.AddBooksNew` and `Catalog.AddBooksAbsent` give every entry afterwards, and `Catalog.AddBooksIdempotent` that a repeat changes nothing |
| Catalog.AddBooksNew | src/main/java/com/librarysystem/services/DatabaseService.java:113-121 | a listed ISBN that was not stored is stored with the entry built from the first listed book with that ISBN; later books with the same ISBN leave it |
| Catalog.AddBooksAbsent | src/main/java/com/librarysystem/services/DatabaseService.java:118-121 | an ISBN that is neither stored nor listed is still absent afterwards |
| Catalog.AddBooksEffect | src/main/java/com/librarysystem/services/DatabaseService.java:118-121 | after addBooks every listed ISBN is stored; books already stored and all loans and borrowers are unchanged |
| Catalog.AddBooksAllPresent | src/main/java/com/librarysystem/services/DatabaseService.java:118-121 | addBooks of books that are all stored changes nothing |
| Catalog.AddBooksIdempotent | src/main/java/com/librarysystem/services/DatabaseService.java:118-121 | adding the same list twice leaves the catalog as adding it once |
| Catalog.AddBooksPreservesInvariants | src/main/java/com/librarysystem/services/DatabaseService.java:118-121 | addBooks keeps every invariant |
| Seqs.Distinct | src/main/java/com/librarysystem/services/DatabaseService.java:129 | the result has no repeats and exactly the elements of the input |
| Seqs.DistinctKeepsFirstOccurrences | src/main/java/com/librarysystem/services/DatabaseService.java:129 | the result lists elements in the order of their first occurrence in the input |
| Seqs.DistinctPrefix | src/main/java/com/librarysystem/services/DatabaseService.java:125-129 | removing repeats from a + b begins with the result for a |
| Catalog.SearchResults | src/main/java/com/librarysystem/services/DatabaseService.java:124-130 | no repeats; contains every title, author and ISBN match, and nothing else |
| Catalog.SearchResultsOrder | src/main/java/com/librarysystem/services/DatabaseService.java:124-130 | the result begins with the distinct title matches, then what the author matches add; all elements are in first-occurrence order over title, author, ISBN |
| Service.DatabaseService.Checkout | src/main/java/com/librarysystem/services/DatabaseService.java:135-155 | the in-place checkout returns and leaves exactly what Lending.Checkout gives, and keeps the invariants |
| Service.DatabaseService.HandleCheckout | src/main/java/com/librarysystem/services/DatabaseService.java:158-169 | the loop over the books leaves the repositories as Lending.OpenLoans gives |
| Service.DatabaseService.Checkin | src/main/java/com/librarysystem/services/DatabaseService.java:195-206 | the in-place checkin returns and leaves exactly what Lending.Checkin gives, and keeps the invariants |
| Service.DatabaseService.AddBook | src/main/java/com/librarysystem/services/DatabaseService.java:113-116 | returns and leaves exactly what Catalog.AddBook gives, and keeps the invariants |
| Service.DatabaseService.SaveBook | src/main/java/com/librarysystem/services/DatabaseService.java:50-60 | the loop over the authors, then the save of the book, leaves the repositories as Catalog.SaveBook gives |
| Service.DatabaseService.AddBooks | src/main/java/com/librarysystem/services/DatabaseService.java:118-121 | always returns true and leaves the repositories as Catalog.AddBooks gives, keeping the invariants |

## Left out

- The clock: `System.currentTimeMillis()` (:159, :203) is the parameter `now`.
- Timestamps are unbounded integers. The `long` arithmetic of the due date (:160) cannot overflow for real clock readings, so wrap-around is not modelled.
- Two loan objects per book: handleCheckout builds two field-identical `StoredLoan` objects, one for the book (:165) and one for the borrower (:163, :166). Which is persisted depends on entity mappings that are not part of this model. The model records one loan-table row and lists its id on both the book and the borrower. This is the row checkin's query later finds.
- The repository queries are foreign SQL run by Spring Data JPA (LoanRepository.java, the title, author and ISBN searches), so they are parameters:
  - checkin receives `matchingIsbn`, which is required to contain every loan of exactly that ISBN (:198 filters on the exact ISBN again);
  - the search function receives the three sub-results.
- Lending.Checkin: its result is stated only for a lookup that covers every loan of the ISBN. The real query (LoanRepository.java:13) compares the lower-cased stored ISBN with the argument as given. So an argument with an upper-case letter, such as an ISBN-10 ending in 'X', matches none of its loans on a database whose LIKE is case-sensitive, and the source's checkin then returns false where `Lending.Checkin` returns true. The model does not capture that outcome.
- The model takes the row order of the loan query as given; a database without `ORDER BY` may return any order.
- Search result equality is value equality. The source's `distinct` uses `Book.equals`, which is not part of this model.
- getBooksByAuthors, getBookByIsbn, getBooksByTitle and the loan searches (:93-111, :171-193) are the foreign lookups above.
- The record-copying functions `toBook`, `toAuthors` and `toAuthor` (:41-44, :46-48, :89-91). `toStoredBook` (:73-77) followed by `setAuthors` (:52-54) is modelled by `Catalog.NewStoredBook`, which keeps the ISBN, title, author names and availability, with no loans. Left out are fields of books and borrowers beyond those the bookkeeping reads (cover, publisher, pages, borrower names and addresses). Their entity classes are not part of this model.
- Author ids: a new author gets an id when saved. The model keys authors by name, as the lookup `getAuthorByName` does.
- If one new book lists the same new author name twice, the source saves two author rows. The model stores one author of that name.
- `saveBook(StoredBook)` (:62-65) is a plain repository save followed by `toBook`. The model writes the book into the map directly at each of its call sites.
- `registerBorrower` (:208-220): its card id is a random UUID and its failure path is an exception the repository may throw, neither of which the model can state.
- Transactions and cascading saves: they are persistence behaviour of the framework, and the model treats each update as immediate.
- Fine accrual and payment, and the GUI: their implementations are not part of this model.
