/**
 * DatabaseService as an object over its four repositories.  Each method
 * updates the repositories in place, mirroring the source's steps, and is
 * proved to leave them as the matching function of Lending or Catalog
 * describes, keeping the invariants of Entities.
 */
module Service {
  import opened Wrappers
  import opened Entities
  import Lending
  import Catalog

  class DatabaseService {
    var books: map<string, StoredBook>
    var borrowers: map<string, StoredBorrower>
    var loans: seq<StoredLoan>
    var authors: map<string, StoredAuthor>

    /** The repositories as one value. */
    function Snapshot(): Db
      reads this
    {
      Db(books, borrowers, loans, authors)
    }

    ghost predicate Valid()
      reads this
    {
      Invariants(Snapshot())
    }

    constructor (db: Db)
      requires Invariants(db)
      ensures Valid() && Snapshot() == db
    {
      books := db.books;
      borrowers := db.borrowers;
      loans := db.loans;
      authors := db.authors;
    }

    /**
     * checkout: lend every book of `selectedIsbns` to the borrower, or none.
     * `now` stands for the clock reading taken when the loans are recorded.
     */
    method Checkout(selectedIsbns: seq<string>, borrowerId: string, now: int) returns (ok: bool)
      requires Valid()
      modifies this
      ensures Valid()
      ensures Lending.Outcome(Snapshot(), ok) == Lending.Checkout(old(Snapshot()), selectedIsbns, borrowerId, now)
    {
      if borrowerId !in borrowers {
        return false;
      }
      var borrower := borrowers[borrowerId];
      var found := Lending.FoundAvailable(books, selectedIsbns);
      if Outstanding(loans, borrower.loans) + |found| > LOAN_LIMIT {
        return false;
      }
      if |found| != |selectedIsbns| {
        return false;
      }
      Lending.CheckoutPreservesInvariants(Snapshot(), selectedIsbns, borrowerId, now);
      HandleCheckout(found, borrowerId, now);
      ok := true;
    }

    /** handleCheckout: for each book, mark it unavailable and record a new loan on it and on the borrower. */
    method HandleCheckout(found: seq<string>, borrowerId: string, now: int)
      requires borrowerId in borrowers
      requires forall i :: 0 <= i < |found| ==> found[i] in books
      modifies this
      ensures Snapshot() == Lending.OpenLoans(old(Snapshot()), found, borrowerId, now)
    {
      var dateOut := now;
      var dueDate := dateOut + LOAN_DAYS * DAY_IN_MILLIS;
      var i := 0;
      while i < |found|
        invariant 0 <= i <= |found|
        invariant Snapshot() == Lending.OpenLoans(old(Snapshot()), found[..i], borrowerId, now)
      {
        ghost var before := Snapshot();
        var isbn := found[i];
        var id := |loans|;
        var b := books[isbn];
        books := books[isbn := b.(available := false, loans := b.loans + [id])];
        var p := borrowers[borrowerId];
        borrowers := borrowers[borrowerId := p.(loans := p.loans + [id])];
        var loan := StoredLoan(id, isbn, borrowerId, dateOut, dueDate, None);
        assert loan == NewLoan(id, isbn, borrowerId, now);
        loans := loans + [loan];
        assert Snapshot() == Lending.OpenLoan(before, isbn, borrowerId, now);
        assert found[..i + 1][..i] == found[..i];
        i := i + 1;
      }
      assert found[..|found|] == found;
    }

    /**
     * checkin: record `now` as the return date of the first outstanding loan
     * of `isbn` to the borrower among `matchingIsbn`, the loans the
     * repository's ISBN query returned.
     */
    method Checkin(isbn: string, borrowerId: string, now: int, matchingIsbn: seq<nat>) returns (ok: bool)
      requires Valid() && Lending.LookupCovers(loans, isbn, matchingIsbn)
      modifies this
      ensures Valid()
      ensures Lending.Outcome(Snapshot(), ok) == Lending.Checkin(old(Snapshot()), isbn, borrowerId, now, matchingIsbn)
    {
      var loan := Lending.FirstOpenLoan(loans, matchingIsbn, isbn, borrowerId);
      if loan.None? {
        return false;
      }
      Lending.CheckinPreservesInvariants(Snapshot(), isbn, borrowerId, now, matchingIsbn);
      var k := matchingIsbn[loan.value];
      loans := loans[k := loans[k].(dateIn := Some(now))];
      ok := true;
    }

    /** addBook: return the stored book with this ISBN, or save the book and return it. */
    method AddBook(book: Book) returns (stored: StoredBook)
      requires Valid()
      modifies this
      ensures Valid()
      ensures Catalog.Added(Snapshot(), stored) == Catalog.AddBook(old(Snapshot()), book)
    {
      if book.isbn in books {
        return books[book.isbn];
      }
      Catalog.AddBookPreservesInvariants(Snapshot(), book);
      stored := SaveBook(book);
    }

    /** saveBook: add the book to each of its authors (found or created) and save them, then save the book. */
    method SaveBook(book: Book) returns (stored: StoredBook)
      modifies this
      ensures Snapshot() == Catalog.SaveBook(old(Snapshot()), book)
      ensures stored == books[book.isbn]
    {
      var saved := Catalog.GetOrCreateAuthors(authors, book.authors);
      ghost var start := authors;
      var i := 0;
      while i < |saved|
        invariant 0 <= i <= |saved|
        invariant authors == Catalog.SaveAuthors(start, saved[..i], book.isbn)
        invariant books == old(books) && borrowers == old(borrowers) && loans == old(loans)
      {
        Catalog.SaveAuthorsStep(start, saved, i, book.isbn);
        var sa := Catalog.CheckAndAddBook(saved[i], book.isbn);
        authors := authors[sa.name := sa];
        i := i + 1;
      }
      assert saved[..|saved|] == saved;
      stored := Catalog.NewStoredBook(book);
      books := books[book.isbn := stored];
    }

    /** addBooks: addBook for each book in order; always reports success. */
    method AddBooks(newBooks: seq<Book>) returns (ok: bool)
      requires Valid()
      modifies this
      ensures Valid() && ok
      ensures Snapshot() == Catalog.AddBooks(old(Snapshot()), newBooks)
    {
      var i := 0;
      while i < |newBooks|
        invariant 0 <= i <= |newBooks|
        invariant Valid()
        invariant Snapshot() == Catalog.AddBooks(old(Snapshot()), newBooks[..i])
      {
        ghost var before := Snapshot();
        var _ := AddBook(newBooks[i]);
        assert Snapshot() == Catalog.AddBook(before, newBooks[i]).db;
        assert newBooks[..i + 1][..i] == newBooks[..i];
        i := i + 1;
      }
      assert newBooks[..|newBooks|] == newBooks;
      ok := true;
    }
  }
}
