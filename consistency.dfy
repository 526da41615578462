/**
 * The referential-consistency invariant between book holders and loan lists,
 * and what each catalog operation does to it. The source does not keep it in
 * general: borrowing a book someone else holds still appends a loan.
 */
module Consistency {
  import opened Wrappers
  import opened Lending

  /** Number of loans of `bookId` in one loan list. */
  function CountOf(loans: seq<Loan>, bookId: nat): nat
  {
    if loans == [] then 0
    else CountOf(loans[..|loans| - 1], bookId) + (if loans[|loans| - 1].bookId == bookId then 1 else 0)
  }

  /** Number of loans of `bookId` over all users. */
  function CountAll(lists: seq<seq<Loan>>, bookId: nat): nat
  {
    if lists == [] then 0
    else CountAll(lists[..|lists| - 1], bookId) + CountOf(lists[|lists| - 1], bookId)
  }

  /** Book `b` (id b + 1) is held exactly when it is on loan once, and then by its holder. */
  ghost predicate HolderAgrees(c: Catalog, b: nat)
    requires b < |c.holders|
  {
    match c.holders[b]
    case None => CountAll(c.loans, b + 1) == 0
    case Some(u) => 1 <= u <= |c.loans| && CountOf(c.loans[u - 1], b + 1) == 1 && CountAll(c.loans, b + 1) == 1
  }

  /** Every loan names a book of the catalog. */
  ghost predicate LoansNameBooks(c: Catalog)
  {
    forall u, j :: 0 <= u < |c.loans| && 0 <= j < |c.loans[u]| ==> 1 <= c.loans[u][j].bookId <= |c.holders|
  }

  /** The holder fields and the loan lists agree. */
  ghost predicate Consistent(c: Catalog)
  {
    LoansNameBooks(c) && forall b :: 0 <= b < |c.holders| ==> HolderAgrees(c, b)
  }

  /** No user holds more than the limit. */
  ghost predicate WithinLimit(c: Catalog)
  {
    forall u :: 0 <= u < |c.loans| ==> |c.loans[u]| <= MaxLoans
  }

  // ---- counting ----

  lemma {:induction false} CountOfConcat(s: seq<Loan>, t: seq<Loan>, bookId: nat)
    ensures CountOf(s + t, bookId) == CountOf(s, bookId) + CountOf(t, bookId)
    decreases |t|
  {
    if t != [] {
      assert (s + t)[..|s + t| - 1] == s + t[..|t| - 1];
      assert (s + t)[|s + t| - 1] == t[|t| - 1];
      CountOfConcat(s, t[..|t| - 1], bookId);
    } else {
      assert s + t == s;
    }
  }

  /** A list has no loan of `bookId` exactly when its count is zero. */
  lemma {:induction false} CountOfZero(s: seq<Loan>, bookId: nat)
    ensures CountOf(s, bookId) == 0 <==> forall j :: 0 <= j < |s| ==> s[j].bookId != bookId
  {
    if s != [] {
      var init := s[..|s| - 1];
      CountOfZero(init, bookId);
      assert forall j :: 0 <= j < |init| ==> init[j] == s[j];
    }
  }

  /** Appending one loan raises the count of its book by one and no other. */
  lemma CountOfAppend(s: seq<Loan>, l: Loan, bookId: nat)
    ensures CountOf(s + [l], bookId) == CountOf(s, bookId) + (if l.bookId == bookId then 1 else 0)
  {
    assert (s + [l])[..|s|] == s;
  }

  /** Removing one loan lowers the count of its book by one and no other. */
  lemma CountOfRemoveAt(s: seq<Loan>, i: nat, bookId: nat)
    requires i < |s|
    ensures CountOf(RemoveAt(s, i), bookId) == CountOf(s, bookId) - (if s[i].bookId == bookId then 1 else 0)
  {
    assert s == s[..i] + [s[i]] + s[i + 1..];
    CountOfConcat(s[..i] + [s[i]], s[i + 1..], bookId);
    CountOfAppend(s[..i], s[i], bookId);
    CountOfConcat(s[..i], s[i + 1..], bookId);
  }

  /** Replacing one user's list changes the total by the difference of that list's counts. */
  lemma {:induction false} CountAllUpdate(lists: seq<seq<Loan>>, u: nat, x: seq<Loan>, bookId: nat)
    requires u < |lists|
    ensures CountAll(lists[u := x], bookId) == CountAll(lists, bookId) - CountOf(lists[u], bookId) + CountOf(x, bookId)
    ensures CountOf(lists[u], bookId) <= CountAll(lists, bookId)
    decreases |lists|
  {
    var n := |lists| - 1;
    var updated := lists[u := x];
    if u == n {
      assert updated[..n] == lists[..n];
    } else {
      assert updated[..n] == lists[..n][u := x];
      CountAllUpdate(lists[..n], u, x, bookId);
    }
  }

  /** Adding a user with no loans leaves every total unchanged. */
  lemma CountAllAddEmpty(lists: seq<seq<Loan>>, bookId: nat)
    ensures CountAll(lists + [[]], bookId) == CountAll(lists, bookId)
  {
    assert (lists + [[]])[..|lists|] == lists;
  }

  /** Nobody holds a loan of `bookId` exactly when its total count is zero. */
  lemma {:induction false} CountAllZero(lists: seq<seq<Loan>>, bookId: nat)
    ensures CountAll(lists, bookId) == 0 <==>
            forall u, j :: 0 <= u < |lists| && 0 <= j < |lists[u]| ==> lists[u][j].bookId != bookId
  {
    if lists != [] {
      var n := |lists| - 1;
      CountAllZero(lists[..n], bookId);
      CountOfZero(lists[n], bookId);
      assert forall u :: 0 <= u < n ==> lists[..n][u] == lists[u];
    }
  }

  // ---- the invariant ----

  /** The invariant in its plain form: a book has a holder iff some user's list contains it. */
  lemma HeldIffOnLoan(c: Catalog, b: nat)
    requires Consistent(c) && b < |c.holders|
    ensures c.holders[b].Some? <==>
            exists u, j :: 0 <= u < |c.loans| && 0 <= j < |c.loans[u]| && c.loans[u][j].bookId == b + 1
  {
    assert HolderAgrees(c, b);
    CountAllZero(c.loans, b + 1);
  }

  /** A holder is a user that has the book on loan. */
  lemma HolderHasLoan(c: Catalog, b: nat)
    requires Consistent(c) && b < |c.holders| && c.holders[b].Some?
    ensures 1 <= c.holders[b].value <= |c.loans|
    ensures FirstLoanIndex(c.loans[c.holders[b].value - 1], b + 1).Some?
  {
    assert HolderAgrees(c, b);
    CountOfZero(c.loans[c.holders[b].value - 1], b + 1);
  }

  /** The empty catalog is consistent. */
  lemma EmptyConsistent()
    ensures Consistent(Catalog([], [])) && WithinLimit(Catalog([], []))
  {
  }

  /** Adding a user keeps the invariant. */
  lemma AddUserKeepsConsistent(c: Catalog)
    requires Consistent(c)
    ensures Consistent(AddUser(c))
  {
    var r := AddUser(c);
    forall b | 0 <= b < |r.holders| ensures HolderAgrees(r, b) {
      assert HolderAgrees(c, b);
      CountAllAddEmpty(c.loans, b + 1);
    }
  }

  /** Adding a book keeps the invariant: no loan can name the new id yet. */
  lemma AddBookKeepsConsistent(c: Catalog)
    requires Consistent(c)
    ensures Consistent(AddBook(c))
  {
    var r := AddBook(c);
    var n := |c.holders|;
    forall b | 0 <= b < |r.holders| ensures HolderAgrees(r, b) {
      if b < n {
        assert HolderAgrees(c, b);
      } else {
        CountAllZero(c.loans, b + 1);
      }
    }
  }

  /** Borrowing can never take a user above the limit. */
  lemma BorrowKeepsLimit(c: Catalog, userId: int, bookId: int, now: int)
    requires WithinLimit(c)
    ensures WithinLimit(Borrow(c, userId, bookId, now).0)
  {
  }

  /** Returning can never take a user above the limit. */
  lemma ReturnKeepsLimit(c: Catalog, userId: int, bookId: int)
    requires WithinLimit(c)
    ensures WithinLimit(Return(c, userId, bookId).0)
  {
  }

  /** Borrowing a book that nobody holds keeps the invariant. */
  lemma BorrowUnheldKeepsConsistent(c: Catalog, userId: int, bookId: int, now: int)
    requires Consistent(c)
    requires 1 <= bookId <= |c.holders| && c.holders[bookId - 1].None?
    ensures Consistent(Borrow(c, userId, bookId, now).0)
  {
    var r := Borrow(c, userId, bookId, now).0;
    if Resolves(c, userId, bookId) && |c.loans[userId - 1]| < MaxLoans {
      var u := userId - 1;
      var l := Loan(bookId, now + LoanPeriod);
      assert r.loans == c.loans[u := c.loans[u] + [l]];
      forall b | 0 <= b < |r.holders| ensures HolderAgrees(r, b) {
        assert HolderAgrees(c, b);
        CountAllUpdate(c.loans, u, c.loans[u] + [l], b + 1);
        CountOfAppend(c.loans[u], l, b + 1);
      }
    }
  }

  /** Borrowing a book someone holds, below the limit, always breaks the invariant: the book is then on loan twice. */
  lemma BorrowHeldBreaksConsistent(c: Catalog, userId: int, bookId: int, now: int)
    requires Consistent(c) && Resolves(c, userId, bookId)
    requires c.holders[bookId - 1].Some? && |c.loans[userId - 1]| < MaxLoans
    ensures !Consistent(Borrow(c, userId, bookId, now).0)
  {
    var r := Borrow(c, userId, bookId, now).0;
    var u, b := userId - 1, bookId - 1;
    var l := Loan(bookId, now + LoanPeriod);
    assert HolderAgrees(c, b);
    assert r.loans == c.loans[u := c.loans[u] + [l]] && r.holders == c.holders;
    CountAllUpdate(c.loans, u, c.loans[u] + [l], bookId);
    CountOfAppend(c.loans[u], l, bookId);
    assert CountAll(r.loans, bookId) == 2;
    assert !HolderAgrees(r, b);
  }

  /** Returning keeps the invariant: the removed loan was the book's only one. */
  lemma ReturnKeepsConsistent(c: Catalog, userId: int, bookId: int)
    requires Consistent(c)
    ensures Consistent(Return(c, userId, bookId).0)
  {
    var r := Return(c, userId, bookId).0;
    if Resolves(c, userId, bookId) && FirstLoanIndex(c.loans[userId - 1], bookId).Some? {
      var u := userId - 1;
      var i := FirstLoanIndex(c.loans[u], bookId).value;
      var rest := RemoveAt(c.loans[u], i);
      assert r.loans == c.loans[u := rest];
      forall v, j | 0 <= v < |r.loans| && 0 <= j < |r.loans[v]|
        ensures 1 <= r.loans[v][j].bookId <= |r.holders|
      {
        if v == u {
          assert r.loans[v][j] == if j < i then c.loans[u][j] else c.loans[u][j + 1];
        }
      }
      forall b | 0 <= b < |r.holders| ensures HolderAgrees(r, b) {
        assert HolderAgrees(c, b);
        CountAllUpdate(c.loans, u, rest, b + 1);
        CountOfRemoveAt(c.loans[u], i, b + 1);
      }
    }
  }

  /**
   * Borrowing an unheld book below the limit and returning it, when the user had
   * no earlier loan of it, restores the catalog exactly.
   */
  lemma BorrowThenReturn(c: Catalog, userId: int, bookId: int, now: int)
    requires Resolves(c, userId, bookId)
    requires c.holders[bookId - 1].None? && |c.loans[userId - 1]| < MaxLoans
    requires forall l :: l in c.loans[userId - 1] ==> l.bookId != bookId
    ensures Borrow(c, userId, bookId, now).1 == Resolved(Borrowed(NowBorrowedBy(userId)))
    ensures Return(Borrow(c, userId, bookId, now).0, userId, bookId) ==
            (c, Resolved(Returned(ReturnedBy(userId))))
  {
    var u, b := userId - 1, bookId - 1;
    var mid := Borrow(c, userId, bookId, now).0;
    var s := c.loans[u];
    assert mid.loans[u] == s + [Loan(bookId, now + LoanPeriod)];
    assert forall j :: 0 <= j < |s| ==> mid.loans[u][j] == s[j];
    var k := FirstLoanIndex(mid.loans[u], bookId);
    assert mid.loans[u][|s|].bookId == bookId;
    assert forall j :: 0 <= j < |s| ==> s[j] in s;
    assert k == Some(|s|);
    assert RemoveAt(mid.loans[u], |s|) == s;
    assert mid.loans[u := s] == c.loans;
    assert mid.holders[b := None] == c.holders;
  }

  /** A user at the limit is refused and nothing changes. */
  lemma BorrowAtLimitChangesNothing(c: Catalog, userId: int, bookId: int, now: int)
    requires Resolves(c, userId, bookId) && |c.loans[userId - 1]| >= MaxLoans
    ensures Borrow(c, userId, bookId, now) == (c, Resolved(LimitReached))
  {
  }

  /** Returning a book the user has no loan of is refused and nothing changes. */
  lemma ReturnNotOnLoanChangesNothing(c: Catalog, userId: int, bookId: int)
    requires Resolves(c, userId, bookId)
    requires forall l :: l in c.loans[userId - 1] ==> l.bookId != bookId
    ensures Return(c, userId, bookId) == (c, Resolved(NotOnLoan))
  {
  }

  /**
   * One user, one book: borrowing it twice succeeds twice as written, leaving the
   * book on loan twice with a holder, and after one return the holder is gone
   * while a loan remains.
   */
  lemma SameUserBorrowsTwice(now: int)
    ensures var c0 := AddBook(AddUser(Catalog([], [])));
            var r1 := Borrow(c0, 1, 1, now);
            var r2 := Borrow(r1.0, 1, 1, now);
            var r3 := Return(r2.0, 1, 1);
            && Consistent(c0) && Consistent(r1.0)
            && r1.1 == Resolved(Borrowed(NowBorrowedBy(1)))
            && r2.1 == Resolved(Borrowed(AlreadyBorrowedBy(1)))
            && r2.0 == Catalog([[Loan(1, now + LoanPeriod), Loan(1, now + LoanPeriod)]], [Some(1)])
            && !Consistent(r2.0)
            && r3.1 == Resolved(Returned(ReturnedBy(1)))
            && r3.0 == Catalog([[Loan(1, now + LoanPeriod)]], [None])
            && !Consistent(r3.0)
  {
    var empty := Catalog([], []);
    var c0 := AddBook(AddUser(empty));
    assert c0 == Catalog([[]], [None]);
    EmptyConsistent();
    AddUserKeepsConsistent(empty);
    AddBookKeepsConsistent(AddUser(empty));
    var l := Loan(1, now + LoanPeriod);
    var r1 := Borrow(c0, 1, 1, now);
    assert [] + [l] == [l];
    assert [[]][0 := [l]] == [[l]];
    assert r1.0 == Catalog([[l]], [Some(1)]);
    BorrowUnheldKeepsConsistent(c0, 1, 1, now);
    var r2 := Borrow(r1.0, 1, 1, now);
    assert [l] + [l] == [l, l];
    assert [[l]][0 := [l, l]] == [[l, l]];
    assert r2.0 == Catalog([[l, l]], [Some(1)]);
    BorrowHeldBreaksConsistent(r1.0, 1, 1, now);
    var r3 := Return(r2.0, 1, 1);
    assert FirstLoanIndex([l, l], 1) == Some(0);
    assert RemoveAt([l, l], 0) == [l];
    assert r3.0 == Catalog([[l]], [None]);
    CountAllZero(r3.0.loans, 1);
    assert r3.0.loans[0][0].bookId == 1;
    assert !HolderAgrees(r3.0, 0);
  }
}
