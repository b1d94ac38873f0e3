/**
 * The catalog helpers of DatabaseService: finding or creating authors,
 * adding a book to an author, adding books to the catalog (addBook,
 * saveBook, addBooks), and merging the three search sub-results.
 */
module Catalog {
  import opened Seqs
  import opened Entities

  /** getOrCreateAuthor: the stored author of that name, else a new author with no books (not yet saved). */
  function GetOrCreateAuthor(authors: map<string, StoredAuthor>, name: string): (a: StoredAuthor)
    ensures AuthorsKeyed(authors) ==> a.name == name && NoDup(a.books)
    ensures name in authors ==> a == authors[name]
    ensures name !in authors ==> a == StoredAuthor(name, [])
  {
    if name in authors then authors[name] else StoredAuthor(name, [])
  }

  /** getOrCreateAuthors: one author per name, in order, all looked up in the authors as they were before saving. */
  function GetOrCreateAuthors(authors: map<string, StoredAuthor>, names: seq<string>): (r: seq<StoredAuthor>)
    ensures |r| == |names|
    ensures forall i :: 0 <= i < |r| ==> r[i] == GetOrCreateAuthor(authors, names[i])
    ensures AuthorsKeyed(authors) ==> forall i :: 0 <= i < |r| ==> r[i].name == names[i]
  {
    seq(|names|, i requires 0 <= i < |names| => GetOrCreateAuthor(authors, names[i]))
  }

  /** checkAndAddBook: add `isbn` to the author's books unless an entry with that ISBN is there. */
  function CheckAndAddBook(a: StoredAuthor, isbn: string): (r: StoredAuthor)
    ensures r.name == a.name
    ensures isbn in r.books
    ensures forall x :: x in r.books <==> x in a.books || x == isbn
    ensures isbn in a.books ==> r == a
    ensures |a.books| <= |r.books| <= |a.books| + 1 && r.books[..|a.books|] == a.books
    ensures NoDup(a.books) ==> NoDup(r.books)
  {
    if isbn !in a.books then a.(books := a.books + [isbn]) else a
  }

  lemma CheckAndAddBookIdempotent(a: StoredAuthor, isbn: string)
    ensures CheckAndAddBook(CheckAndAddBook(a, isbn), isbn) == CheckAndAddBook(a, isbn)
  {
  }

  /** The names of `saved`, in order. */
  function Names(saved: seq<StoredAuthor>): (r: seq<string>)
    ensures |r| == |saved| && forall i :: 0 <= i < |saved| ==> r[i] == saved[i].name
  {
    seq(|saved|, i requires 0 <= i < |saved| => saved[i].name)
  }

  /** The loop of saveBook over the book's authors: add the book to each and save it. */
  function SaveAuthors(authors: map<string, StoredAuthor>, saved: seq<StoredAuthor>, isbn: string)
    : (r: map<string, StoredAuthor>)
    ensures forall n :: n in authors ==> n in r
  {
    if saved == [] then authors
    else
      var n := |saved| - 1;
      var sa := CheckAndAddBook(saved[n], isbn);
      SaveAuthors(authors, saved[..n], isbn)[sa.name := sa]
  }

  /** One more author of the loop of saveBook. */
  lemma SaveAuthorsStep(authors: map<string, StoredAuthor>, saved: seq<StoredAuthor>, i: nat, isbn: string)
    requires i < |saved|
    ensures SaveAuthors(authors, saved[..i + 1], isbn) ==
      SaveAuthors(authors, saved[..i], isbn)[saved[i].name := CheckAndAddBook(saved[i], isbn)]
  {
    assert saved[..i + 1][..i] == saved[..i];
  }

  /** The loop keeps authors keyed by name with duplicate-free book lists, and drops no author. */
  lemma {:induction false} SaveAuthorsKeyed(authors: map<string, StoredAuthor>, saved: seq<StoredAuthor>, isbn: string)
    requires AuthorsKeyed(authors)
    requires forall i :: 0 <= i < |saved| ==> saved[i] == GetOrCreateAuthor(authors, saved[i].name)
    ensures AuthorsKeyed(SaveAuthors(authors, saved, isbn))
    ensures forall n :: n in authors ==> n in SaveAuthors(authors, saved, isbn)
  {
    if saved != [] {
      var n := |saved| - 1;
      SaveAuthorsKeyed(authors, saved[..n], isbn);
    }
  }

  /** After the loop every saved author is stored with `isbn` added to its books as looked up. */
  lemma {:induction false} SaveAuthorsSaved(authors: map<string, StoredAuthor>, saved: seq<StoredAuthor>, isbn: string)
    requires forall i :: 0 <= i < |saved| ==> saved[i] == GetOrCreateAuthor(authors, saved[i].name)
    ensures var r := SaveAuthors(authors, saved, isbn);
      forall i :: 0 <= i < |saved| ==>
        saved[i].name in r && r[saved[i].name] == CheckAndAddBook(saved[i], isbn)
  {
    if saved != [] {
      var n := |saved| - 1;
      var p := saved[..n];
      SaveAuthorsSaved(authors, p, isbn);
      var sa := CheckAndAddBook(saved[n], isbn);
      var q := SaveAuthors(authors, p, isbn);
      var r := SaveAuthors(authors, saved, isbn);
      assert r == q[sa.name := sa];
      forall i | 0 <= i < |saved|
        ensures saved[i].name in r && r[saved[i].name] == CheckAndAddBook(saved[i], isbn)
      {
        if saved[i].name == sa.name {
          assert saved[i] == GetOrCreateAuthor(authors, sa.name) == saved[n];
        } else {
          assert i < n && saved[i] == p[i];
          assert r[saved[i].name] == q[p[i].name];
        }
      }
    }
  }

  /** The loop leaves every author that is not among the saved ones as it was. */
  lemma {:induction false} SaveAuthorsOthers(authors: map<string, StoredAuthor>, saved: seq<StoredAuthor>, isbn: string)
    ensures var r := SaveAuthors(authors, saved, isbn);
      forall x :: x in r && x !in Names(saved) ==> x in authors && r[x] == authors[x]
  {
    if saved != [] {
      var n := |saved| - 1;
      var p := saved[..n];
      SaveAuthorsOthers(authors, p, isbn);
      forall x | x in SaveAuthors(authors, saved, isbn) && x !in Names(saved)
        ensures x in authors && SaveAuthors(authors, saved, isbn)[x] == authors[x]
      {
        assert x != saved[n].name == Names(saved)[n];
        assert x !in Names(p) by {
          forall i | 0 <= i < n ensures Names(p)[i] != x {
            assert Names(p)[i] == Names(saved)[i];
          }
        }
      }
    }
  }

  /** The book `book` as saveBook stores it: its authors by name, no loans. */
  function NewStoredBook(book: Book): (sb: StoredBook)
  {
    StoredBook(book.isbn, book.title, book.authors, book.available, [])
  }

  /** saveBook: save the book's authors, each listing the book, then the book itself. */
  function SaveBook(db: Db, book: Book): (r: Db)
    ensures r.books == db.books[book.isbn := NewStoredBook(book)]
    ensures r.loans == db.loans && r.borrowers == db.borrowers
    ensures forall n :: n in db.authors ==> n in r.authors
  {
    var saved := GetOrCreateAuthors(db.authors, book.authors);
    db.(authors := SaveAuthors(db.authors, saved, book.isbn),
        books := db.books[book.isbn := NewStoredBook(book)])
  }

  /** The catalog after addBook, and the stored book it returns. */
  datatype Added = Added(db: Db, book: StoredBook)

  /**
   * addBook: a book whose ISBN is already stored is returned as stored and
   * nothing is saved; otherwise the book is saved and returned.
   */
  function AddBook(db: Db, book: Book): (r: Added)
    ensures book.isbn in r.db.books && r.book == r.db.books[book.isbn]
    ensures book.isbn in db.books ==> r.db == db
    ensures book.isbn !in db.books ==>
      r.book == StoredBook(book.isbn, book.title, book.authors, book.available, []) &&
      r.db.books == db.books[book.isbn := r.book]
    ensures r.db.loans == db.loans && r.db.borrowers == db.borrowers
  {
    if book.isbn in db.books then Added(db, db.books[book.isbn])
    else var db' := SaveBook(db, book); Added(db', db'.books[book.isbn])
  }

  /** Adding the same book a second time returns the same stored book and changes nothing. */
  lemma AddBookTwice(db: Db, book: Book)
    ensures var first := AddBook(db, book);
      AddBook(first.db, book) == first
  {
  }

  /** addBook keeps every invariant. */
  lemma AddBookPreservesInvariants(db: Db, book: Book)
    requires Invariants(db)
    ensures Invariants(AddBook(db, book).db)
  {
    if book.isbn !in db.books {
      SaveBookFilesAuthors(db, book);
      var r := SaveBook(db, book);
      assert LoansFiled(r) by {
        forall i | 0 <= i < |r.loans| ensures Filed(r, i) {
          assert Filed(db, i);
        }
      }
    }
  }

  /** saveBook of a new book keeps authors keyed and every book's authors listing it. */
  lemma SaveBookFilesAuthors(db: Db, book: Book)
    requires Valid(db) && book.isbn !in db.books
    ensures AuthorsKeyed(SaveBook(db, book).authors) && BookAuthorsFiled(SaveBook(db, book))
  {
    var saved := GetOrCreateAuthors(db.authors, book.authors);
    SaveAuthorsKeyed(db.authors, saved, book.isbn);
    SaveAuthorsSaved(db.authors, saved, book.isbn);
    SaveAuthorsOthers(db.authors, saved, book.isbn);
    var r := SaveBook(db, book);
    assert Names(saved) == book.authors;
    forall k, j | k in r.books && 0 <= j < |r.books[k].authors|
      ensures r.books[k].authors[j] in r.authors && k in r.authors[r.books[k].authors[j]].books
    {
      var a := r.books[k].authors[j];
      if k == book.isbn {
        assert saved[j].name == a;
      } else {
        assert r.books[k] == db.books[k];
        if a in Names(saved) {
          var i := IndexOf(Names(saved), a);
          assert saved[i] == db.authors[a];
        }
      }
    }
  }

  /** addBooks: addBook for each book in order. */
  function AddBooks(db: Db, books: seq<Book>): (r: Db)
    ensures r.loans == db.loans && r.borrowers == db.borrowers
    ensures forall k :: k in db.books ==> k in r.books
  {
    if books == [] then db
    else
      var n := |books| - 1;
      AddBook(AddBooks(db, books[..n]), books[n]).db
  }

  /** After addBooks every listed ISBN is stored, books already stored are untouched, and loans and borrowers are unchanged. */
  lemma {:induction false} AddBooksEffect(db: Db, books: seq<Book>)
    ensures var r := AddBooks(db, books);
      (forall i :: 0 <= i < |books| ==> books[i].isbn in r.books) &&
      (forall k :: k in db.books ==> k in r.books && r.books[k] == db.books[k]) &&
      r.loans == db.loans && r.borrowers == db.borrowers
  {
    if books != [] {
      var n := |books| - 1;
      AddBooksEffect(db, books[..n]);
      var m := AddBooks(db, books[..n]);
      forall i | 0 <= i < |books| ensures books[i].isbn in AddBooks(db, books).books {
        if i < n {
          assert books[..n][i] == books[i];
        }
      }
    }
  }

  /** addBooks adds no ISBN that is neither stored nor listed. */
  lemma {:induction false} AddBooksAbsent(db: Db, books: seq<Book>, k: string)
    requires k !in db.books
    requires forall j :: 0 <= j < |books| ==> books[j].isbn != k
    ensures k !in AddBooks(db, books).books
  {
    if books != [] {
      var n := |books| - 1;
      AddBooksAbsent(db, books[..n], k);
    }
  }

  /**
   * A listed ISBN that was not stored gets the entry of the first listed
   * book with that ISBN: later books with the same ISBN find it stored.
   */
  lemma {:induction false} AddBooksNew(db: Db, books: seq<Book>, i: nat)
    requires i < |books| && books[i].isbn !in db.books
    requires forall j :: 0 <= j < i ==> books[j].isbn != books[i].isbn
    ensures books[i].isbn in AddBooks(db, books).books
    ensures AddBooks(db, books).books[books[i].isbn] == NewStoredBook(books[i])
  {
    var n := |books| - 1;
    var p := books[..n];
    var m := AddBooks(db, p);
    var k := books[i].isbn;
    if i == n {
      AddBooksAbsent(db, p, k);
    } else {
      assert p[i] == books[i];
      AddBooksNew(db, p, i);
      assert k in m.books && m.books[k] == NewStoredBook(books[i]);
    }
  }

  /** addBooks on books that are all stored changes nothing. */
  lemma {:induction false} AddBooksAllPresent(db: Db, books: seq<Book>)
    requires forall i :: 0 <= i < |books| ==> books[i].isbn in db.books
    ensures AddBooks(db, books) == db
  {
    if books != [] {
      AddBooksAllPresent(db, books[..|books| - 1]);
    }
  }

  /** Adding the same list of books twice leaves the catalog as adding it once. */
  lemma AddBooksIdempotent(db: Db, books: seq<Book>)
    ensures AddBooks(AddBooks(db, books), books) == AddBooks(db, books)
  {
    AddBooksEffect(db, books);
    AddBooksAllPresent(AddBooks(db, books), books);
  }

  lemma {:induction false} AddBooksPreservesInvariants(db: Db, books: seq<Book>)
    requires Invariants(db)
    ensures Invariants(AddBooks(db, books))
  {
    if books != [] {
      var n := |books| - 1;
      AddBooksPreservesInvariants(db, books[..n]);
      AddBookPreservesInvariants(AddBooks(db, books[..n]), books[n]);
    }
  }

  // ---- search ----

  /**
   * getBooksForSearchQuery: the title matches, then the author matches,
   * then the ISBN matches, with repeats removed.
   */
  function SearchResults<T(==)>(byTitle: seq<T>, byAuthor: seq<T>, byIsbn: seq<T>): (r: seq<T>)
    ensures NoDup(r)
    ensures forall i :: 0 <= i < |byTitle| ==> byTitle[i] in r
    ensures forall i :: 0 <= i < |byAuthor| ==> byAuthor[i] in r
    ensures forall i :: 0 <= i < |byIsbn| ==> byIsbn[i] in r
    ensures forall i :: 0 <= i < |r| ==> r[i] in byTitle || r[i] in byAuthor || r[i] in byIsbn
  {
    var all := byTitle + byAuthor + byIsbn;
    assert forall i :: 0 <= i < |byTitle| ==> all[i] == byTitle[i];
    assert forall i :: 0 <= i < |byAuthor| ==> all[|byTitle| + i] == byAuthor[i];
    assert forall i :: 0 <= i < |byIsbn| ==> all[|byTitle| + |byAuthor| + i] == byIsbn[i];
    Distinct(all)
  }

  /**
   * The merged results begin with the distinct title matches, continue
   * with what the author matches add, and list every book in the order of
   * its first occurrence across title, author and ISBN matches.
   */
  lemma SearchResultsOrder<T>(byTitle: seq<T>, byAuthor: seq<T>, byIsbn: seq<T>)
    ensures var r := SearchResults(byTitle, byAuthor, byIsbn);
      |Distinct(byTitle)| <= |Distinct(byTitle + byAuthor)| <= |r| &&
      r[..|Distinct(byTitle)|] == Distinct(byTitle) &&
      r[..|Distinct(byTitle + byAuthor)|] == Distinct(byTitle + byAuthor) &&
      forall i, j :: 0 <= i < j < |r| ==>
        IndexOf(byTitle + byAuthor + byIsbn, r[i]) < IndexOf(byTitle + byAuthor + byIsbn, r[j])
  {
    var all := byTitle + byAuthor + byIsbn;
    var r := Distinct(all);
    assert SearchResults(byTitle, byAuthor, byIsbn) == r;
    DistinctKeepsFirstOccurrences(all);
    DistinctPrefixes(byTitle, byAuthor, byIsbn);
  }

  /** Removing repeats from a + b + c begins with the result for a, then for a + b. */
  lemma DistinctPrefixes<T>(a: seq<T>, b: seq<T>, c: seq<T>)
    ensures var r := Distinct(a + b + c);
      |Distinct(a)| <= |Distinct(a + b)| <= |r| &&
      r[..|Distinct(a)|] == Distinct(a) &&
      r[..|Distinct(a + b)|] == Distinct(a + b)
  {
    DistinctPrefix(a, b);
    DistinctPrefix(a + b, c);
    var da := Distinct(a);
    var dab := Distinct(a + b);
    var r := Distinct(a + b + c);
    assert r[..|da|] == r[..|dab|][..|da|];
  }
}
