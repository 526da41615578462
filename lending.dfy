/**
 * Value-level model of the lending core: loans, the outcomes each branch of the
 * source reports, and the whole catalog as plain values (one loan list per user,
 * one holder per book) with the effect of every catalog operation on it.
 * The classes in module Library are proved to change their state exactly as
 * these functions say.
 */
module Lending {
  import opened Wrappers

  /** A user may hold at most this many loans (`len(self.borrowed_books) < 5`). */
  const MaxLoans: nat := 5
  /** Time is a count of seconds. */
  const SecondsPerDay: int := 86400
  /** `timedelta(days=14)`. */
  const LoanPeriod: int := 14 * SecondsPerDay

  /** An entry of `borrowed_books`: the book borrowed and its due time. */
  datatype Loan = Loan(bookId: nat, due: int)

  /** What `Book.borrow` reports. */
  datatype BookBorrowOutcome = NowBorrowedBy(user: nat) | AlreadyBorrowedBy(holder: nat)
  /** What `Book.return_book` reports. */
  datatype BookReturnOutcome = ReturnedBy(holder: nat) | NotCurrentlyBorrowed
  /** What `User.borrow_book` reports. */
  datatype BorrowOutcome = Borrowed(book: BookBorrowOutcome) | LimitReached
  /** What `User.return_book` reports. */
  datatype ReturnOutcome = Returned(book: BookReturnOutcome) | NotOnLoan
  /** What the catalog's borrow and return report: a missing id, or the user's own outcome. */
  datatype Outcome<+T> = NotFound(userMissing: bool, bookMissing: bool) | Resolved(result: T)
  /** One line of the due-date report of `User.check_due_dates`. */
  datatype DueLine = Overdue(bookId: nat) | DueOn(bookId: nat, due: int)

  /** The classification of one loan at time `now`: overdue exactly when strictly past due. */
  function Classify(l: Loan, now: int): (r: DueLine)
    ensures r.bookId == l.bookId
    ensures r.Overdue? <==> l.due < now
    ensures r.DueOn? ==> r.due == l.due
  {
    if l.due < now then Overdue(l.bookId) else DueOn(l.bookId, l.due)
  }

  /** The position of the first loan of `bookId`, if there is one. */
  function FirstLoanIndex(loans: seq<Loan>, bookId: nat): (r: Option<nat>)
    ensures r.Some? ==> r.value < |loans| && loans[r.value].bookId == bookId
    ensures r.Some? ==> forall j :: 0 <= j < r.value ==> loans[j].bookId != bookId
    ensures r.None? <==> forall j :: 0 <= j < |loans| ==> loans[j].bookId != bookId
  {
    if loans == [] then None
    else if loans[0].bookId == bookId then Some(0)
    else match FirstLoanIndex(loans[1..], bookId)
      case None => assert forall j :: 1 <= j < |loans| ==> loans[j] == loans[1..][j - 1]; None
      case Some(k) => Some(k + 1)
  }

  /** `s` without its element at position `i`, the others in their order. */
  function RemoveAt(s: seq<Loan>, i: nat): seq<Loan>
    requires i < |s|
  {
    s[..i] + s[i + 1..]
  }

  /** Python's `list.remove(x)`: drops the first element equal to `x` (the caller makes sure there is one). */
  function RemoveFirst(s: seq<Loan>, x: Loan): (r: seq<Loan>)
    requires x in s
    ensures |r| == |s| - 1
  {
    if s[0] == x then s[1..] else [s[0]] + RemoveFirst(s[1..], x)
  }

  /** `list.remove(x)` takes away exactly one copy of `x`; every other element keeps its count. */
  lemma {:induction false} RemoveFirstCounts(s: seq<Loan>, x: Loan)
    requires x in s
    ensures multiset(RemoveFirst(s, x)) + multiset{x} == multiset(s)
  {
    assert s == [s[0]] + s[1..];
    if s[0] != x {
      RemoveFirstCounts(s[1..], x);
    }
  }

  /** Removing by value removes the first position holding that value. */
  lemma {:induction false} RemoveFirstAt(s: seq<Loan>, x: Loan, i: nat)
    requires i < |s| && s[i] == x
    requires forall j :: 0 <= j < i ==> s[j] != x
    ensures RemoveFirst(s, x) == RemoveAt(s, i)
  {
    if i > 0 {
      assert s[0] != x;
      assert s[1..][i - 1] == x;
      assert RemoveFirst(s, x) == [s[0]] + RemoveFirst(s[1..], x);
      RemoveFirstAt(s[1..], x, i - 1);
      assert [s[0]] + s[1..][..i - 1] == s[..i];
      assert s[1..][i..] == s[i + 1..];
    } else {
      assert s[..0] + s[1..] == s[1..];
    }
  }

  /** The whole lending state: `loans[k]` belongs to the user with id k + 1, `holders[k]` to the book with id k + 1. */
  datatype Catalog = Catalog(loans: seq<seq<Loan>>, holders: seq<Option<nat>>)

  /** Both ids name an entry (sequential ids make id k the entry at position k - 1). */
  predicate Resolves(c: Catalog, userId: int, bookId: int)
  {
    1 <= userId <= |c.loans| && 1 <= bookId <= |c.holders|
  }

  /** `add_user`: a new user, with id one past the last, holding nothing. */
  function AddUser(c: Catalog): (r: Catalog)
    ensures |r.loans| == |c.loans| + 1 && r.loans[..|c.loans|] == c.loans && r.loans[|c.loans|] == []
    ensures r.holders == c.holders
  {
    Catalog(c.loans + [[]], c.holders)
  }

  /** `add_book`: a new book, with id one past the last, held by nobody. */
  function AddBook(c: Catalog): (r: Catalog)
    ensures |r.holders| == |c.holders| + 1 && r.holders[..|c.holders|] == c.holders && r.holders[|c.holders|] == None
    ensures r.loans == c.loans
  {
    Catalog(c.loans, c.holders + [None])
  }

  /**
   * `LibrarySystem.borrow_book`: resolve both ids; then `User.borrow_book`, which
   * below the limit lets `Book.borrow` set the holder only if the book is unheld,
   * and appends the loan in either case.
   */
  function Borrow(c: Catalog, userId: int, bookId: int, now: int): (r: (Catalog, Outcome<BorrowOutcome>))
    ensures |r.0.loans| == |c.loans| && |r.0.holders| == |c.holders|
    ensures !Resolves(c, userId, bookId) ==>
              r == (c, NotFound(!(1 <= userId <= |c.loans|), !(1 <= bookId <= |c.holders|)))
    ensures Resolves(c, userId, bookId) ==> r.1.Resolved?
    ensures forall u :: 0 <= u < |c.loans| && u != userId - 1 ==> r.0.loans[u] == c.loans[u]
    ensures forall b :: 0 <= b < |c.holders| && b != bookId - 1 ==> r.0.holders[b] == c.holders[b]
  {
    if !Resolves(c, userId, bookId) then
      (c, NotFound(!(1 <= userId <= |c.loans|), !(1 <= bookId <= |c.holders|)))
    else
      var u, b := userId - 1, bookId - 1;
      if |c.loans[u]| < MaxLoans then
        var loans := c.loans[u := c.loans[u] + [Loan(bookId, now + LoanPeriod)]];
        var holders := if c.holders[b].None? then c.holders[b := Some(userId)] else c.holders;
        var bookOutcome := if c.holders[b].None? then NowBorrowedBy(userId) else AlreadyBorrowedBy(c.holders[b].value);
        (Catalog(loans, holders), Resolved(Borrowed(bookOutcome)))
      else
        (c, Resolved(LimitReached))
  }

  /**
   * `LibrarySystem.return_book`: resolve both ids; then `User.return_book`, which
   * removes the user's first loan of the book and lets `Book.return_book` clear
   * its holder, or changes nothing when the user has no such loan.
   */
  function Return(c: Catalog, userId: int, bookId: int): (r: (Catalog, Outcome<ReturnOutcome>))
    ensures |r.0.loans| == |c.loans| && |r.0.holders| == |c.holders|
    ensures !Resolves(c, userId, bookId) ==>
              r == (c, NotFound(!(1 <= userId <= |c.loans|), !(1 <= bookId <= |c.holders|)))
    ensures Resolves(c, userId, bookId) ==> r.1.Resolved?
    ensures forall u :: 0 <= u < |c.loans| && u != userId - 1 ==> r.0.loans[u] == c.loans[u]
    ensures forall b :: 0 <= b < |c.holders| && b != bookId - 1 ==> r.0.holders[b] == c.holders[b]
  {
    if !Resolves(c, userId, bookId) then
      (c, NotFound(!(1 <= userId <= |c.loans|), !(1 <= bookId <= |c.holders|)))
    else
      var u, b := userId - 1, bookId - 1;
      match FirstLoanIndex(c.loans[u], bookId)
      case None => (c, Resolved(NotOnLoan))
      case Some(i) =>
        var bookOutcome := if c.holders[b].Some? then ReturnedBy(c.holders[b].value) else NotCurrentlyBorrowed;
        (Catalog(c.loans[u := RemoveAt(c.loans[u], i)], c.holders[b := None]), Resolved(Returned(bookOutcome)))
  }

  /** All loans of all users, user by user in catalog order, each user's in list order. */
  function Flatten(lists: seq<seq<Loan>>): seq<Loan>
  {
    if lists == [] then [] else Flatten(lists[..|lists| - 1]) + lists[|lists| - 1]
  }

  /** A loan appears in the overdue report's input exactly when it is in some user's list. */
  lemma {:induction false} FlattenHasEveryLoan(lists: seq<seq<Loan>>, l: Loan)
    ensures l in Flatten(lists) <==> exists u :: 0 <= u < |lists| && l in lists[u]
  {
    if lists != [] {
      var init := lists[..|lists| - 1];
      FlattenHasEveryLoan(init, l);
      assert forall u :: 0 <= u < |init| ==> init[u] == lists[u];
    }
  }
}
