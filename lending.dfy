/**
 * Checkout and checkin (DatabaseService.checkout, handleCheckout, checkin)
 * as functions of the database, with the properties the bookkeeping
 * promises: the eligibility rule, all-or-nothing checkout, the loan cap,
 * the loans a checkout records, and checkin closing one matching loan.
 */
module Lending {
  import opened Wrappers
  import opened Seqs
  import opened Entities

  /** The database after an operation, and the operation's boolean result. */
  datatype Outcome = Outcome(db: Db, ok: bool)

  // ---- counting outstanding loans ----

  /** Loans appended to the table do not change the count for ids that were already there. */
  lemma {:induction false} OutstandingExtend(loans: seq<StoredLoan>, more: seq<StoredLoan>, ids: seq<nat>)
    requires forall id :: id in ids ==> id < |loans|
    ensures Outstanding(loans + more, ids) == Outstanding(loans, ids)
  {
    if ids != [] {
      var n := |ids| - 1;
      assert forall id :: id in ids[..n] ==> id in ids;
      assert ids[n] in ids;
      OutstandingExtend(loans, more, ids[..n]);
    }
  }

  /** Recording a return date on one loan never raises a count. */
  lemma {:induction false} OutstandingClose(loans: seq<StoredLoan>, k: nat, now: int, ids: seq<nat>)
    requires k < |loans|
    ensures Outstanding(loans[k := loans[k].(dateIn := Some(now))], ids) <= Outstanding(loans, ids)
  {
    if ids != [] {
      OutstandingClose(loans, k, now, ids[..|ids| - 1]);
    }
  }

  // ---- checkout eligibility ----

  /** Every requested ISBN names a stored book that is available. */
  ghost predicate AllAvailable(books: map<string, StoredBook>, selected: seq<string>)
  {
    forall i :: 0 <= i < |selected| ==> selected[i] in books && books[selected[i]].available
  }

  /**
   * The requested ISBNs whose book is stored and available, in request
   * order (the map/filter pipeline of checkout; repeats are kept).
   */
  function FoundAvailable(books: map<string, StoredBook>, selected: seq<string>): (found: seq<string>)
    ensures |found| <= |selected|
    ensures forall i :: 0 <= i < |found| ==> found[i] in books && books[found[i]].available
    ensures |found| == |selected| <==> AllAvailable(books, selected)
    ensures |found| == |selected| ==> found == selected
  {
    if selected == [] then []
    else
      var rest := FoundAvailable(books, selected[1..]);
      if selected[0] in books && books[selected[0]].available then [selected[0]] + rest else rest
  }

  /**
   * FoundAvailable is exactly the filter of the request: it keeps, in
   * request order, every occurrence of an ISBN whose book is stored and
   * available, and nothing else.
   */
  lemma {:induction false} FoundAvailableFilters(books: map<string, StoredBook>, selected: seq<string>)
    ensures var found := FoundAvailable(books, selected);
      Subsequence(found, selected) &&
      (forall x :: x in found <==> x in selected && x in books && books[x].available) &&
      (forall x :: multiset(found)[x] ==
        if x in books && books[x].available then multiset(selected)[x] else 0)
  {
    if selected != [] {
      var s0 := selected[0];
      var tail := selected[1..];
      var rest := FoundAvailable(books, tail);
      FoundAvailableFilters(books, tail);
      assert selected == [s0] + tail;
      assert multiset(selected) == multiset{s0} + multiset(tail);
      if s0 in books && books[s0].available {
        var found := [s0] + rest;
        assert found[1..] == rest;
        assert multiset(found) == multiset{s0} + multiset(rest);
      } else {
        assert rest != [] ==> rest[0] != s0;
      }
    }
  }

  /**
   * Whether checkout goes ahead: the borrower exists, the outstanding loans
   * plus the found books stay within the limit, and every requested ISBN
   * was found available.
   */
  function CheckoutAllowed(db: Db, selected: seq<string>, cardId: string): (ok: bool)
    ensures ok <==>
      cardId in db.borrowers && AllAvailable(db.books, selected) &&
      Outstanding(db.loans, db.borrowers[cardId].loans) + |selected| <= LOAN_LIMIT
  {
    if cardId !in db.borrowers then false
    else
      var found := FoundAvailable(db.books, selected);
      if Outstanding(db.loans, db.borrowers[cardId].loans) + |found| > LOAN_LIMIT then false
      else |found| == |selected|
  }

  // ---- recording the loans ----

  /** One iteration of handleCheckout: lend `isbn` to `cardId`. */
  function OpenLoan(db: Db, isbn: string, cardId: string, now: int): (r: Db)
    requires isbn in db.books && cardId in db.borrowers
    ensures r.books.Keys == db.books.Keys && r.borrowers.Keys == db.borrowers.Keys
    ensures r.loans == db.loans + [NewLoan(|db.loans|, isbn, cardId, now)]
    ensures r.authors == db.authors
  {
    var id := |db.loans|;
    var b := db.books[isbn];
    var p := db.borrowers[cardId];
    db.(books := db.books[isbn := b.(available := false, loans := b.loans + [id])],
        borrowers := db.borrowers[cardId := p.(loans := p.loans + [id])],
        loans := db.loans + [NewLoan(id, isbn, cardId, now)])
  }

  /** handleCheckout: lend every ISBN of `isbns`, in order. */
  function OpenLoans(db: Db, isbns: seq<string>, cardId: string, now: int): (r: Db)
    requires cardId in db.borrowers
    requires forall i :: 0 <= i < |isbns| ==> isbns[i] in db.books
    ensures r.books.Keys == db.books.Keys && r.borrowers.Keys == db.borrowers.Keys
    ensures |r.loans| == |db.loans| + |isbns|
    ensures r.authors == db.authors
  {
    if isbns == [] then db
    else
      var n := |isbns| - 1;
      OpenLoan(OpenLoans(db, isbns[..n], cardId, now), isbns[n], cardId, now)
  }

  /** checkout: either every requested book is lent, or nothing changes. */
  function Checkout(db: Db, selected: seq<string>, cardId: string, now: int): (r: Outcome)
    ensures r.ok <==>
      cardId in db.borrowers && AllAvailable(db.books, selected) &&
      Outstanding(db.loans, db.borrowers[cardId].loans) + |selected| <= LOAN_LIMIT
    ensures !r.ok ==> r.db == db
  {
    if CheckoutAllowed(db, selected, cardId)
    then Outcome(OpenLoans(db, selected, cardId, now), true)
    else Outcome(db, false)
  }

  /** The ids `base + j` of the positions `j` at which `isbns` requests `k`. */
  function IdsOf(k: string, isbns: seq<string>, base: nat): (r: seq<nat>)
    ensures |r| <= |isbns|
    ensures forall i :: 0 <= i < |r| ==> base <= r[i] < base + |isbns|
  {
    if isbns == [] then []
    else
      var n := |isbns| - 1;
      IdsOf(k, isbns[..n], base) + (if isbns[n] == k then [base + n] else [])
  }

  /** The ids `base`, ..., `base + n - 1`. */
  function Ids(base: nat, n: nat): (r: seq<nat>)
    ensures |r| == n && forall j :: 0 <= j < n ==> r[j] == base + j
  {
    seq(n, j => base + j)
  }

  /** A requested ISBN that occurs once in the request gets exactly one loan id. */
  lemma {:induction false} IdsOfSingle(isbns: seq<string>, j: nat, base: nat)
    requires j < |isbns|
    requires forall i :: 0 <= i < |isbns| && i != j ==> isbns[i] != isbns[j]
    ensures IdsOf(isbns[j], isbns, base) == [base + j]
  {
    var n := |isbns| - 1;
    if j == n {
      IdsOfAbsent(isbns[j], isbns[..n], base);
    } else {
      IdsOfSingle(isbns[..n], j, base);
    }
  }

  lemma {:induction false} IdsOfAbsent(k: string, isbns: seq<string>, base: nat)
    requires k !in isbns
    ensures IdsOf(k, isbns, base) == []
  {
    if isbns != [] {
      IdsOfAbsent(k, isbns[..|isbns| - 1], base);
    }
  }

  /** The loan table keeps its old rows and gains one new loan per requested ISBN. */
  lemma OpenLoansLedger(db: Db, isbns: seq<string>, cardId: string, now: int)
    requires cardId in db.borrowers
    requires forall i :: 0 <= i < |isbns| ==> isbns[i] in db.books
    ensures var r := OpenLoans(db, isbns, cardId, now);
      r.loans[..|db.loans|] == db.loans &&
      forall j :: 0 <= j < |isbns| ==>
        r.loans[|db.loans| + j] == NewLoan(|db.loans| + j, isbns[j], cardId, now)
  {
    var r := OpenLoans(db, isbns, cardId, now);
    OpenLoansKeepsRows(db, isbns, cardId, now);
    forall j | 0 <= j < |isbns|
      ensures r.loans[|db.loans| + j] == NewLoan(|db.loans| + j, isbns[j], cardId, now)
    {
      OpenLoansRow(db, isbns, cardId, now, j);
    }
  }

  /** The rows already in the loan table stay as they were. */
  lemma {:induction false} OpenLoansKeepsRows(db: Db, isbns: seq<string>, cardId: string, now: int)
    requires cardId in db.borrowers
    requires forall i :: 0 <= i < |isbns| ==> isbns[i] in db.books
    ensures OpenLoans(db, isbns, cardId, now).loans[..|db.loans|] == db.loans
  {
    if isbns != [] {
      var n := |isbns| - 1;
      var prev := OpenLoans(db, isbns[..n], cardId, now);
      OpenLoansKeepsRows(db, isbns[..n], cardId, now);
      var r := OpenLoans(db, isbns, cardId, now);
      assert r.loans == prev.loans + [NewLoan(|db.loans| + n, isbns[n], cardId, now)];
      assert r.loans[..|db.loans|] == prev.loans[..|db.loans|];
    }
  }

  /** Request position j becomes row |db.loans| + j of the loan table. */
  lemma {:induction false} OpenLoansRow(db: Db, isbns: seq<string>, cardId: string, now: int, j: nat)
    requires cardId in db.borrowers
    requires forall i :: 0 <= i < |isbns| ==> isbns[i] in db.books
    requires j < |isbns|
    ensures OpenLoans(db, isbns, cardId, now).loans[|db.loans| + j] ==
      NewLoan(|db.loans| + j, isbns[j], cardId, now)
  {
    var n := |isbns| - 1;
    var prev := OpenLoans(db, isbns[..n], cardId, now);
    var r := OpenLoans(db, isbns, cardId, now);
    assert r.loans == prev.loans + [NewLoan(|db.loans| + n, isbns[n], cardId, now)];
    if j < n {
      OpenLoansRow(db, isbns[..n], cardId, now, j);
      assert isbns[..n][j] == isbns[j];
    }
  }

  /** The borrower's list gains the new ids in order; other borrowers are untouched. */
  lemma {:induction false} OpenLoansBorrowers(db: Db, isbns: seq<string>, cardId: string, now: int)
    requires cardId in db.borrowers
    requires forall i :: 0 <= i < |isbns| ==> isbns[i] in db.books
    ensures var r := OpenLoans(db, isbns, cardId, now);
      r.borrowers[cardId] ==
        db.borrowers[cardId].(loans := db.borrowers[cardId].loans + Ids(|db.loans|, |isbns|)) &&
      forall c :: c in db.borrowers && c != cardId ==> r.borrowers[c] == db.borrowers[c]
  {
    OpenLoansBorrower(db, isbns, cardId, now, cardId);
    forall c | c in db.borrowers && c != cardId
      ensures OpenLoans(db, isbns, cardId, now).borrowers[c] == db.borrowers[c]
    {
      OpenLoansBorrower(db, isbns, cardId, now, c);
    }
  }

  /** One borrower's entry after handleCheckout. */
  lemma {:induction false} OpenLoansBorrower(db: Db, isbns: seq<string>, cardId: string, now: int, c: string)
    requires cardId in db.borrowers && c in db.borrowers
    requires forall i :: 0 <= i < |isbns| ==> isbns[i] in db.books
    ensures OpenLoans(db, isbns, cardId, now).borrowers[c] ==
      if c == cardId then db.borrowers[c].(loans := db.borrowers[c].loans + Ids(|db.loans|, |isbns|))
      else db.borrowers[c]
  {
    if isbns == [] {
      assert db.borrowers[c].loans + Ids(|db.loans|, 0) == db.borrowers[c].loans;
    } else {
      var n := |isbns| - 1;
      var prev := OpenLoans(db, isbns[..n], cardId, now);
      OpenLoansBorrower(db, isbns[..n], cardId, now, c);
      assert OpenLoans(db, isbns, cardId, now) == OpenLoan(prev, isbns[n], cardId, now);
      if c == cardId {
        assert Ids(|db.loans|, n) + [|db.loans| + n] == Ids(|db.loans|, n + 1);
      }
    }
  }

  /**
   * Every requested book is unavailable and gains one loan id per time it
   * is requested; every other book is untouched.
   */
  lemma {:induction false} OpenLoansBooks(db: Db, isbns: seq<string>, cardId: string, now: int)
    requires cardId in db.borrowers
    requires forall i :: 0 <= i < |isbns| ==> isbns[i] in db.books
    ensures var r := OpenLoans(db, isbns, cardId, now);
      forall k :: k in db.books ==>
        r.books[k] == db.books[k].(available := db.books[k].available && k !in isbns,
                                   loans := db.books[k].loans + IdsOf(k, isbns, |db.loans|))
  {
    forall k | k in db.books
      ensures OpenLoans(db, isbns, cardId, now).books[k] ==
        db.books[k].(available := db.books[k].available && k !in isbns,
                     loans := db.books[k].loans + IdsOf(k, isbns, |db.loans|))
    {
      OpenLoansBook(db, isbns, cardId, now, k);
    }
  }

  lemma {:induction false} OpenLoansBook(db: Db, isbns: seq<string>, cardId: string, now: int, k: string)
    requires cardId in db.borrowers
    requires forall i :: 0 <= i < |isbns| ==> isbns[i] in db.books
    requires k in db.books
    ensures OpenLoans(db, isbns, cardId, now).books[k] ==
      db.books[k].(available := db.books[k].available && k !in isbns,
                   loans := db.books[k].loans + IdsOf(k, isbns, |db.loans|))
  {
    var b := db.books[k];
    if isbns == [] {
      assert b.loans + IdsOf(k, isbns, |db.loans|) == b.loans;
    } else {
      var n := |isbns| - 1;
      var prev := OpenLoans(db, isbns[..n], cardId, now);
      OpenLoansBook(db, isbns[..n], cardId, now, k);
      assert isbns == isbns[..n] + [isbns[n]];
      assert (k in isbns) == (k in isbns[..n] || k == isbns[n]);
      assert |prev.loans| == |db.loans| + n;
      if isbns[n] == k {
        assert b.loans + IdsOf(k, isbns, |db.loans|) ==
          (b.loans + IdsOf(k, isbns[..n], |db.loans|)) + [|db.loans| + n];
      } else {
        assert IdsOf(k, isbns, |db.loans|) == IdsOf(k, isbns[..n], |db.loans|);
      }
    }
  }

  /** The borrower's outstanding count rises by the number of requested books. */
  lemma {:induction false} OpenLoansOutstanding(db: Db, isbns: seq<string>, cardId: string, now: int)
    requires BorrowerLoansLinked(db)
    requires cardId in db.borrowers
    requires forall i :: 0 <= i < |isbns| ==> isbns[i] in db.books
    ensures var r := OpenLoans(db, isbns, cardId, now);
      Outstanding(r.loans, r.borrowers[cardId].loans) ==
        Outstanding(db.loans, db.borrowers[cardId].loans) + |isbns|
  {
    var r := OpenLoans(db, isbns, cardId, now);
    var old_ids := db.borrowers[cardId].loans;
    OpenLoansBorrowers(db, isbns, cardId, now);
    OpenLoansLedger(db, isbns, cardId, now);
    assert r.loans == db.loans + r.loans[|db.loans|..];
    assert forall id :: id in old_ids ==> id < |db.loans|;
    OutstandingExtend(db.loans, r.loans[|db.loans|..], old_ids);
    var added := Ids(|db.loans|, |isbns|);
    forall id | id in added ensures id < |r.loans| && r.loans[id].IsOutstanding() {
      var j :| 0 <= j < |isbns| && added[j] == id;
      assert r.loans[|db.loans| + j] == NewLoan(id, isbns[j], cardId, now);
    }
    OutstandingAll(r.loans, added);
    OutstandingConcat(r.loans, old_ids, added);
  }

  /** The count over a concatenation is the sum of the counts. */
  lemma {:induction false} OutstandingConcat(loans: seq<StoredLoan>, a: seq<nat>, b: seq<nat>)
    ensures Outstanding(loans, a + b) == Outstanding(loans, a) + Outstanding(loans, b)
  {
    if b == [] {
      assert a + b == a;
    } else {
      var n := |b| - 1;
      assert (a + b)[..|a + b| - 1] == a + b[..n];
      OutstandingConcat(loans, a, b[..n]);
    }
  }

  /** When every listed loan is outstanding, the count is the length of the list. */
  lemma {:induction false} OutstandingAll(loans: seq<StoredLoan>, ids: seq<nat>)
    requires forall id :: id in ids ==> id < |loans| && loans[id].IsOutstanding()
    ensures Outstanding(loans, ids) == |ids|
  {
    if ids != [] {
      var n := |ids| - 1;
      assert forall id :: id in ids[..n] ==> id in ids;
      assert ids[n] in ids;
      OutstandingAll(loans, ids[..n]);
    }
  }

  /** One iteration of handleCheckout keeps the structural invariants and unavailability of lent books. */
  lemma OpenLoanPreserves(db: Db, isbn: string, cardId: string, now: int)
    requires Valid(db) && OnLoanUnavailable(db)
    requires isbn in db.books && cardId in db.borrowers
    ensures var r := OpenLoan(db, isbn, cardId, now);
      Valid(r) && OnLoanUnavailable(r)
  {
    OpenLoanLinks(db, isbn, cardId, now);
    OpenLoanFiles(db, isbn, cardId, now);
  }

  /** One iteration keeps every listed loan id pointing at a loan of that book and that borrower. */
  lemma OpenLoanLinks(db: Db, isbn: string, cardId: string, now: int)
    requires BookLoansLinked(db) && BorrowerLoansLinked(db)
    requires isbn in db.books && cardId in db.borrowers
    ensures var r := OpenLoan(db, isbn, cardId, now);
      BookLoansLinked(r) && BorrowerLoansLinked(r)
  {
    var r := OpenLoan(db, isbn, cardId, now);
    assert BookLoansLinked(r) by {
      forall k, id | k in r.books && id in r.books[k].loans
        ensures id < |r.loans| && r.loans[id].isbn == k
      {
        if id != |db.loans| {
          assert id in db.books[k].loans;
          assert r.loans[id] == db.loans[id];
        }
      }
    }
    assert BorrowerLoansLinked(r) by {
      forall c, id | c in r.borrowers && id in r.borrowers[c].loans
        ensures id < |r.loans| && r.loans[id].cardId == c
      {
        if id != |db.loans| {
          assert id in db.borrowers[c].loans;
          assert r.loans[id] == db.loans[id];
        }
      }
    }
  }

  /** One iteration keeps every loan filed on its book and borrower, and the books' authors filed. */
  lemma OpenLoanFiles(db: Db, isbn: string, cardId: string, now: int)
    requires LoansFiled(db) && BookAuthorsFiled(db)
    requires isbn in db.books && cardId in db.borrowers
    ensures var r := OpenLoan(db, isbn, cardId, now);
      LoansFiled(r) && BookAuthorsFiled(r)
  {
    var r := OpenLoan(db, isbn, cardId, now);
    assert LoansFiled(r) by {
      forall i | 0 <= i < |r.loans| ensures Filed(r, i) {
        if i < |db.loans| {
          assert Filed(db, i);
          assert r.loans[i] == db.loans[i];
        }
      }
    }
    assert BookAuthorsFiled(r) by {
      forall k, j | k in r.books && 0 <= j < |r.books[k].authors|
        ensures r.books[k].authors[j] in r.authors && k in r.authors[r.books[k].authors[j]].books
      {
        assert r.books[k].authors == db.books[k].authors;
      }
    }
  }

  lemma {:induction false} OpenLoansPreserves(db: Db, isbns: seq<string>, cardId: string, now: int)
    requires Valid(db) && OnLoanUnavailable(db)
    requires cardId in db.borrowers
    requires forall i :: 0 <= i < |isbns| ==> isbns[i] in db.books
    ensures var r := OpenLoans(db, isbns, cardId, now);
      Valid(r) && OnLoanUnavailable(r)
  {
    if isbns != [] {
      var n := |isbns| - 1;
      OpenLoansPreserves(db, isbns[..n], cardId, now);
      OpenLoanPreserves(OpenLoans(db, isbns[..n], cardId, now), isbns[n], cardId, now);
    }
  }

  /**
   * A successful checkout leaves the borrower with its old outstanding loans
   * plus one per requested book, so at most `LOAN_LIMIT`; every requested
   * book is unavailable; the table keeps its rows and gains, for request
   * position `j`, a loan of `selected[j]` to the borrower taken out at `now`,
   * due fourteen days later and not returned.
   */
  lemma CheckoutSucceeds(db: Db, selected: seq<string>, cardId: string, now: int)
    requires Valid(db)
    requires Checkout(db, selected, cardId, now).ok
    ensures var r := Checkout(db, selected, cardId, now).db;
      cardId in r.borrowers &&
      Outstanding(r.loans, r.borrowers[cardId].loans) ==
        Outstanding(db.loans, db.borrowers[cardId].loans) + |selected| &&
      Outstanding(r.loans, r.borrowers[cardId].loans) <= LOAN_LIMIT &&
      (forall i :: 0 <= i < |selected| ==> selected[i] in r.books && !r.books[selected[i]].available) &&
      |r.loans| == |db.loans| + |selected| && r.loans[..|db.loans|] == db.loans &&
      (forall j :: 0 <= j < |selected| ==>
        r.loans[|db.loans| + j] ==
          StoredLoan(|db.loans| + j, selected[j], cardId, now, now + 14 * 86_400_000, None)) &&
      r.borrowers[cardId].loans == db.borrowers[cardId].loans + Ids(|db.loans|, |selected|)
  {
    OpenLoansOutstanding(db, selected, cardId, now);
    OpenLoansLedger(db, selected, cardId, now);
    OpenLoansBorrowers(db, selected, cardId, now);
    OpenLoansBooks(db, selected, cardId, now);
    var r := Checkout(db, selected, cardId, now).db;
    forall i | 0 <= i < |selected|
      ensures selected[i] in r.books && !r.books[selected[i]].available
    {
      assert selected[i] in selected;
    }
  }

  /** When no ISBN is requested twice, each requested book gains exactly its own new loan. */
  lemma CheckoutOneLoanPerBook(db: Db, selected: seq<string>, cardId: string, now: int, j: nat)
    requires Checkout(db, selected, cardId, now).ok
    requires NoDup(selected) && j < |selected|
    ensures var r := Checkout(db, selected, cardId, now).db;
      r.books[selected[j]].loans == db.books[selected[j]].loans + [|db.loans| + j]
  {
    assert AllAvailable(db.books, selected);
    OpenLoansBook(db, selected, cardId, now, selected[j]);
    IdsOfSingle(selected, j, |db.loans|);
  }

  /**
   * A request naming one available ISBN twice is not rejected: the book
   * gets two loans, as long as the borrower has room for both.
   */
  lemma CheckoutKeepsRepeatedIsbn(db: Db, isbn: string, cardId: string, now: int)
    requires cardId in db.borrowers && isbn in db.books && db.books[isbn].available
    requires Outstanding(db.loans, db.borrowers[cardId].loans) + 2 <= LOAN_LIMIT
    ensures var r := Checkout(db, [isbn, isbn], cardId, now);
      r.ok && r.db.books[isbn].loans == db.books[isbn].loans + [|db.loans|, |db.loans| + 1]
  {
    var base := |db.loans|;
    assert AllAvailable(db.books, [isbn, isbn]);
    OpenLoansBook(db, [isbn, isbn], cardId, now, isbn);
    assert [isbn, isbn][..1] == [isbn] && [isbn][..0] == [];
    assert IdsOf(isbn, [isbn], base) == [base];
    assert IdsOf(isbn, [isbn, isbn], base) == [base] + [base + 1];
  }

  /** Checkout keeps every invariant, whatever its result. */
  lemma CheckoutPreservesInvariants(db: Db, selected: seq<string>, cardId: string, now: int)
    requires Invariants(db)
    ensures Invariants(Checkout(db, selected, cardId, now).db)
  {
    if Checkout(db, selected, cardId, now).ok {
      assert AllAvailable(db.books, selected);
      OpenLoansPreserves(db, selected, cardId, now);
      CheckoutKeepsCap(db, selected, cardId, now);
    }
  }

  /** After a successful checkout no borrower has more than `LOAN_LIMIT` loans outstanding. */
  lemma CheckoutKeepsCap(db: Db, selected: seq<string>, cardId: string, now: int)
    requires Valid(db) && WithinCap(db)
    requires Checkout(db, selected, cardId, now).ok
    ensures WithinCap(Checkout(db, selected, cardId, now).db)
  {
    assert AllAvailable(db.books, selected);
    var r := OpenLoans(db, selected, cardId, now);
    OpenLoansOutstanding(db, selected, cardId, now);
    forall c | c in r.borrowers
      ensures Outstanding(r.loans, r.borrowers[c].loans) <= LOAN_LIMIT
    {
      if c != cardId {
        OpenLoansOtherCount(db, selected, cardId, now, c);
      }
    }
  }

  /** Recording loans for one borrower leaves every other borrower's outstanding count as it was. */
  lemma OpenLoansOtherCount(db: Db, isbns: seq<string>, cardId: string, now: int, c: string)
    requires BorrowerLoansLinked(db)
    requires cardId in db.borrowers && c in db.borrowers && c != cardId
    requires forall i :: 0 <= i < |isbns| ==> isbns[i] in db.books
    ensures var r := OpenLoans(db, isbns, cardId, now);
      Outstanding(r.loans, r.borrowers[c].loans) == Outstanding(db.loans, db.borrowers[c].loans)
  {
    var r := OpenLoans(db, isbns, cardId, now);
    OpenLoansBorrowers(db, isbns, cardId, now);
    OpenLoansLedger(db, isbns, cardId, now);
    assert r.loans == db.loans + r.loans[|db.loans|..];
    assert forall id :: id in db.borrowers[c].loans ==> id < |db.loans|;
    OutstandingExtend(db.loans, r.loans[|db.loans|..], db.borrowers[c].loans);
  }

  // ---- checkin ----

  /** A loan of `isbn` to `cardId` that is still out. */
  predicate Matches(l: StoredLoan, isbn: string, cardId: string)
  {
    l.isbn == isbn && l.IsOutstanding() && l.cardId == cardId
  }

  ghost predicate HasOpenLoan(loans: seq<StoredLoan>, isbn: string, cardId: string)
  {
    exists i :: 0 <= i < |loans| && Matches(loans[i], isbn, cardId)
  }

  /** What the ISBN query of the loan repository may return: stored loans, among them every loan of exactly `isbn`. */
  ghost predicate LookupCovers(loans: seq<StoredLoan>, isbn: string, lookup: seq<nat>)
  {
    (forall j :: 0 <= j < |lookup| ==> lookup[j] < |loans|) &&
    (forall i :: 0 <= i < |loans| && loans[i].isbn == isbn ==> i in lookup)
  }

  /** Position in `lookup` of the first loan matching `isbn` and `cardId` (findFirst after the filters). */
  function FirstOpenLoan(loans: seq<StoredLoan>, lookup: seq<nat>, isbn: string, cardId: string): (r: Option<nat>)
    requires forall j :: 0 <= j < |lookup| ==> lookup[j] < |loans|
    ensures r.None? <==> forall j :: 0 <= j < |lookup| ==> !Matches(loans[lookup[j]], isbn, cardId)
    ensures r.Some? ==>
      r.value < |lookup| && Matches(loans[lookup[r.value]], isbn, cardId) &&
      forall j :: 0 <= j < r.value ==> !Matches(loans[lookup[j]], isbn, cardId)
  {
    if lookup == [] then None
    else if Matches(loans[lookup[0]], isbn, cardId) then Some(0)
    else
      match FirstOpenLoan(loans, lookup[1..], isbn, cardId)
      case None => None
      case Some(j) => Some(j + 1)
  }

  /** checkin: record `now` as the return date of the first matching loan; books and borrowers are not touched. */
  function Checkin(db: Db, isbn: string, cardId: string, now: int, lookup: seq<nat>): (r: Outcome)
    requires LookupCovers(db.loans, isbn, lookup)
    ensures r.ok <==> HasOpenLoan(db.loans, isbn, cardId)
    ensures !r.ok ==> r.db == db
    ensures r.db.books == db.books && r.db.borrowers == db.borrowers && r.db.authors == db.authors
    ensures |r.db.loans| == |db.loans|
  {
    match FirstOpenLoan(db.loans, lookup, isbn, cardId)
    case None =>
      assert !HasOpenLoan(db.loans, isbn, cardId) by {
        forall i | 0 <= i < |db.loans| && db.loans[i].isbn == isbn
          ensures !Matches(db.loans[i], isbn, cardId)
        {
          var j := IndexOf(lookup, i);
        }
      }
      Outcome(db, false)
    case Some(j) =>
      var k := lookup[j];
      Outcome(db.(loans := db.loans[k := db.loans[k].(dateIn := Some(now))]), true)
  }

  /**
   * A successful checkin closes exactly one loan: the first matching one in
   * lookup order, whose return date becomes `now`; every other loan is unchanged.
   */
  lemma CheckinClosesFirstMatch(db: Db, isbn: string, cardId: string, now: int, lookup: seq<nat>)
    requires LookupCovers(db.loans, isbn, lookup)
    requires Checkin(db, isbn, cardId, now, lookup).ok
    ensures exists j :: (0 <= j < |lookup| &&
      Matches(db.loans[lookup[j]], isbn, cardId) &&
      (forall i :: 0 <= i < j ==> !Matches(db.loans[lookup[i]], isbn, cardId)) &&
      Checkin(db, isbn, cardId, now, lookup).db.loans ==
        db.loans[lookup[j] := db.loans[lookup[j]].(dateIn := Some(now))])
  {
    var j := FirstOpenLoan(db.loans, lookup, isbn, cardId).value;
    assert 0 <= j < |lookup|;
  }

  /** After returning the only outstanding loan of a book to a borrower, checking the same pair in again fails. */
  lemma RepeatCheckinFails(db: Db, isbn: string, cardId: string, now: int, later: int,
                           lookup: seq<nat>, lookup': seq<nat>, k: nat)
    requires LookupCovers(db.loans, isbn, lookup)
    requires k < |db.loans| && Matches(db.loans[k], isbn, cardId)
    requires forall i :: 0 <= i < |db.loans| && Matches(db.loans[i], isbn, cardId) ==> i == k
    requires LookupCovers(Checkin(db, isbn, cardId, now, lookup).db.loans, isbn, lookup')
    ensures Checkin(db, isbn, cardId, now, lookup).ok
    ensures !Checkin(Checkin(db, isbn, cardId, now, lookup).db, isbn, cardId, later, lookup').ok
  {
    CheckinClosesFirstMatch(db, isbn, cardId, now, lookup);
    var r := Checkin(db, isbn, cardId, now, lookup).db;
    forall i | 0 <= i < |r.loans| ensures !Matches(r.loans[i], isbn, cardId) {
      if i != k {
        assert r.loans[i] == db.loans[i];
      }
    }
  }

  /** Checkin keeps every invariant, whatever its result. */
  lemma CheckinPreservesInvariants(db: Db, isbn: string, cardId: string, now: int, lookup: seq<nat>)
    requires Invariants(db) && LookupCovers(db.loans, isbn, lookup)
    ensures Invariants(Checkin(db, isbn, cardId, now, lookup).db)
  {
    var out := Checkin(db, isbn, cardId, now, lookup);
    if out.ok {
      var j := FirstOpenLoan(db.loans, lookup, isbn, cardId).value;
      var k := lookup[j];
      var r := out.db;
      assert r.loans == db.loans[k := db.loans[k].(dateIn := Some(now))];
      assert forall i :: 0 <= i < |r.loans| ==>
        r.loans[i].isbn == db.loans[i].isbn && r.loans[i].cardId == db.loans[i].cardId &&
        r.loans[i].id == db.loans[i].id;
      assert LoansFiled(r) by {
        forall i | 0 <= i < |r.loans| ensures Filed(r, i) {
          assert Filed(db, i);
        }
      }
      forall c | c in r.borrowers
        ensures Outstanding(r.loans, r.borrowers[c].loans) <= LOAN_LIMIT
      {
        OutstandingClose(db.loans, k, now, db.borrowers[c].loans);
      }
    }
  }

  /**
   * checkin leaves the book marked unavailable, so the returned copy cannot
   * be checked out again by anyone.
   */
  lemma CheckinKeepsBookOut(db: Db, isbn: string, cardId: string, now: int, lookup: seq<nat>,
                            selected: seq<string>, anyone: string)
    requires Invariants(db) && LookupCovers(db.loans, isbn, lookup)
    requires Checkin(db, isbn, cardId, now, lookup).ok
    requires isbn in selected
    ensures var r := Checkin(db, isbn, cardId, now, lookup).db;
      isbn in r.books && !r.books[isbn].available &&
      !Checkout(r, selected, anyone, now).ok
  {
    var i :| 0 <= i < |db.loans| && Matches(db.loans[i], isbn, cardId);
    assert Filed(db, i);
    var p :| 0 <= p < |selected| && selected[p] == isbn;
  }
}
