/**
 * The stored entities of the library database (books, borrowers, loans,
 * authors), the whole database as one value, and the invariants the
 * bookkeeping keeps.  Entities refer to each other by key: a book or a
 * borrower lists the ids of its loans, an author the ISBNs of its books.
 */
module Entities {
  import opened Wrappers
  import opened Seqs

  /** One day in milliseconds; timestamps are epoch milliseconds. */
  const DAY_IN_MILLIS: int := 86_400_000
  /** A loan is due this many days after it is taken out. */
  const LOAN_DAYS: int := 14
  /** Most loans a borrower may have outstanding at once. */
  const LOAN_LIMIT: int := 3

  /** A row of the loan table; `dateIn == None` means the book is still out. */
  datatype StoredLoan = StoredLoan(
    id: nat,
    isbn: string,
    cardId: string,
    dateOut: int,
    dueDate: int,
    dateIn: Option<int>)
  {
    predicate IsOutstanding() { dateIn.None? }
  }

  /** A catalogued book: its authors by name, its loans by id. */
  datatype StoredBook = StoredBook(
    isbn: string,
    title: string,
    authors: seq<string>,
    available: bool,
    loans: seq<nat>)

  /** A registered borrower and the ids of its loans. */
  datatype StoredBorrower = StoredBorrower(cardId: string, loans: seq<nat>)

  /** An author and the ISBNs of its books. */
  datatype StoredAuthor = StoredAuthor(name: string, books: seq<string>)

  /** A book as the catalog's callers hand it in (authors by name). */
  datatype Book = Book(isbn: string, title: string, authors: seq<string>, available: bool)

  /** The four repositories: books by ISBN, borrowers by card id, the loan table, authors by name. */
  datatype Db = Db(
    books: map<string, StoredBook>,
    borrowers: map<string, StoredBorrower>,
    loans: seq<StoredLoan>,
    authors: map<string, StoredAuthor>)

  /** The loan due `LOAN_DAYS` days after `now`, taken out at `now` and not yet returned. */
  function NewLoan(id: nat, isbn: string, cardId: string, now: int): (l: StoredLoan)
    ensures l.id == id && l.isbn == isbn && l.cardId == cardId
    ensures l.IsOutstanding() && l.dateOut == now
    ensures l.dueDate - l.dateOut == 14 * 86_400_000
  {
    StoredLoan(id, isbn, cardId, now, now + LOAN_DAYS * DAY_IN_MILLIS, None)
  }

  /** Number of entries of `ids` naming an outstanding loan of the table `loans`. */
  function Outstanding(loans: seq<StoredLoan>, ids: seq<nat>): (n: nat)
    ensures n <= |ids|
  {
    if ids == [] then 0
    else
      var id := ids[|ids| - 1];
      Outstanding(loans, ids[..|ids| - 1])
        + (if id < |loans| && loans[id].IsOutstanding() then 1 else 0)
  }

  // ---- structural invariants ----

  ghost predicate BooksKeyed(books: map<string, StoredBook>)
  {
    forall k :: k in books ==> books[k].isbn == k
  }

  ghost predicate BorrowersKeyed(borrowers: map<string, StoredBorrower>)
  {
    forall c :: c in borrowers ==> borrowers[c].cardId == c
  }

  /** A loan's id is its position in the loan table. */
  ghost predicate LedgerNumbered(loans: seq<StoredLoan>)
  {
    forall i :: 0 <= i < |loans| ==> loans[i].id == i
  }

  /** Every loan a book lists exists and is a loan of that book. */
  ghost predicate BookLoansLinked(db: Db)
  {
    forall k :: k in db.books ==>
      forall id :: id in db.books[k].loans ==> id < |db.loans| && db.loans[id].isbn == k
  }

  /** Every loan a borrower lists exists and is a loan of that borrower. */
  ghost predicate BorrowerLoansLinked(db: Db)
  {
    forall c :: c in db.borrowers ==>
      forall id :: id in db.borrowers[c].loans ==> id < |db.loans| && db.loans[id].cardId == c
  }

  /** Every loan of the table is of a stored book and a stored borrower, and both list it. */
  ghost predicate LoansFiled(db: Db)
  {
    forall i :: 0 <= i < |db.loans| ==> Filed(db, i)
  }

  ghost predicate Filed(db: Db, i: nat)
    requires i < |db.loans|
  {
    var l := db.loans[i];
    l.isbn in db.books && i in db.books[l.isbn].loans &&
    l.cardId in db.borrowers && i in db.borrowers[l.cardId].loans
  }

  /** Authors are keyed by name and list each ISBN at most once. */
  ghost predicate AuthorsKeyed(authors: map<string, StoredAuthor>)
  {
    forall n :: n in authors ==> authors[n].name == n && NoDup(authors[n].books)
  }

  /** Every author of a stored book is a stored author that lists the book. */
  ghost predicate BookAuthorsFiled(db: Db)
  {
    forall k, j :: k in db.books && 0 <= j < |db.books[k].authors| ==>
      db.books[k].authors[j] in db.authors && k in db.authors[db.books[k].authors[j]].books
  }

  ghost predicate Valid(db: Db)
  {
    BooksKeyed(db.books) && BorrowersKeyed(db.borrowers) && LedgerNumbered(db.loans) &&
    BookLoansLinked(db) && BorrowerLoansLinked(db) && LoansFiled(db) &&
    AuthorsKeyed(db.authors) && BookAuthorsFiled(db)
  }

  // ---- bookkeeping invariants ----

  /** A book with an outstanding loan is not marked available. */
  ghost predicate OnLoanUnavailable(db: Db)
  {
    forall k :: k in db.books ==>
      forall id :: id in db.books[k].loans && id < |db.loans| && db.loans[id].IsOutstanding() ==>
        !db.books[k].available
  }

  /** No borrower has more than `LOAN_LIMIT` loans outstanding. */
  ghost predicate WithinCap(db: Db)
  {
    forall c :: c in db.borrowers ==> Outstanding(db.loans, db.borrowers[c].loans) <= LOAN_LIMIT
  }

  ghost predicate Invariants(db: Db)
  {
    Valid(db) && OnLoanUnavailable(db) && WithinCap(db)
  }
}
