/**
 * The objects of the library: books and users whose fields change in place, and
 * the catalog that owns both lists and mediates every lookup, loan and return.
 */
module Library {
  import opened Wrappers
  import opened Text
  import opened Lending

  /** A book; `borrowedBy` is the id of its holder, if any. */
  class Book {
    const id: nat
    const title: string
    const author: string
    const isbn: string
    const genre: string
    var borrowedBy: Option<nat>

    constructor (id: nat, title: string, author: string, isbn: string, genre: string)
      ensures this.id == id && this.title == title && this.author == author
      ensures this.isbn == isbn && this.genre == genre
      ensures borrowedBy == None
    {
      this.id := id;
      this.title := title;
      this.author := author;
      this.isbn := isbn;
      this.genre := genre;
      borrowedBy := None;
    }

    /** `Book.borrow`: take the user as holder unless someone already holds the book. */
    method Borrow(userId: nat) returns (outcome: BookBorrowOutcome)
      modifies this
      ensures old(borrowedBy).None? ==> borrowedBy == Some(userId) && outcome == NowBorrowedBy(userId)
      ensures old(borrowedBy).Some? ==>
                borrowedBy == old(borrowedBy) && outcome == AlreadyBorrowedBy(old(borrowedBy).value)
    {
      if borrowedBy.None? {
        borrowedBy := Some(userId);
        outcome := NowBorrowedBy(userId);
      } else {
        outcome := AlreadyBorrowedBy(borrowedBy.value);
      }
    }

    /** `Book.return_book`: the book ends unheld, whoever held it. */
    method ReturnBook() returns (outcome: BookReturnOutcome)
      modifies this
      ensures borrowedBy == None
      ensures old(borrowedBy).Some? ==> outcome == ReturnedBy(old(borrowedBy).value)
      ensures old(borrowedBy).None? ==> outcome == NotCurrentlyBorrowed
    {
      if borrowedBy.Some? {
        outcome := ReturnedBy(borrowedBy.value);
        borrowedBy := None;
      } else {
        outcome := NotCurrentlyBorrowed;
      }
    }
  }

  /** A user and the loans it holds, oldest first. */
  class User {
    const id: nat
    const name: string
    const email: string
    const userType: string
    var loans: seq<Loan>

    constructor (id: nat, name: string, email: string, userType: string)
      ensures this.id == id && this.name == name && this.email == email && this.userType == userType
      ensures loans == []
    {
      this.id := id;
      this.name := name;
      this.email := email;
      this.userType := userType;
      loans := [];
    }

    /**
     * `User.borrow_book`: below the limit, ask the book to take this user as
     * holder and append the loan, due `LoanPeriod` after `now`, whatever the
     * book answered; at the limit, change nothing.
     */
    method BorrowBook(book: Book, now: int) returns (outcome: BorrowOutcome)
      modifies this, book
      ensures old(|loans|) >= MaxLoans ==>
                loans == old(loans) && book.borrowedBy == old(book.borrowedBy) && outcome == LimitReached
      ensures old(|loans|) < MaxLoans ==> loans == old(loans) + [Loan(book.id, now + LoanPeriod)]
      ensures old(|loans|) < MaxLoans && old(book.borrowedBy).None? ==>
                book.borrowedBy == Some(id) && outcome == Borrowed(NowBorrowedBy(id))
      ensures old(|loans|) < MaxLoans && old(book.borrowedBy).Some? ==>
                book.borrowedBy == old(book.borrowedBy) &&
                outcome == Borrowed(AlreadyBorrowedBy(old(book.borrowedBy).value))
    {
      if |loans| < MaxLoans {
        var bookOutcome := book.Borrow(id);
        loans := loans + [Loan(book.id, now + LoanPeriod)];
        outcome := Borrowed(bookOutcome);
      } else {
        outcome := LimitReached;
      }
    }

    /**
     * `User.return_book`: scan the loans for the first one of the book; if found,
     * clear the book's holder and remove that loan, keeping the others in order;
     * otherwise change nothing.
     */
    method ReturnBook(book: Book) returns (outcome: ReturnOutcome)
      modifies this, book
      ensures FirstLoanIndex(old(loans), book.id).None? ==>
                loans == old(loans) && book.borrowedBy == old(book.borrowedBy) && outcome == NotOnLoan
      ensures FirstLoanIndex(old(loans), book.id).Some? ==>
                loans == RemoveAt(old(loans), FirstLoanIndex(old(loans), book.id).value) &&
                book.borrowedBy == None
      ensures FirstLoanIndex(old(loans), book.id).Some? && old(book.borrowedBy).Some? ==>
                outcome == Returned(ReturnedBy(old(book.borrowedBy).value))
      ensures FirstLoanIndex(old(loans), book.id).Some? && old(book.borrowedBy).None? ==>
                outcome == Returned(NotCurrentlyBorrowed)
    {
      var i := 0;
      while i < |loans|
        invariant 0 <= i <= |loans|
        invariant loans == old(loans) && book.borrowedBy == old(book.borrowedBy)
        invariant forall j :: 0 <= j < i ==> loans[j].bookId != book.id
      {
        if loans[i].bookId == book.id {
          var due := loans[i].due;
          var bookOutcome := book.ReturnBook();
          RemoveFirstAt(loans, Loan(book.id, due), i);
          loans := RemoveFirst(loans, Loan(book.id, due));
          outcome := Returned(bookOutcome);
          return;
        }
        i := i + 1;
      }
      outcome := NotOnLoan;
    }

    /** `User.check_due_dates`: one report line per loan, in order, overdue iff strictly past due. */
    method CheckDueDates(now: int) returns (report: seq<DueLine>)
      ensures |report| == |loans|
      ensures forall i :: 0 <= i < |loans| ==> report[i] == Classify(loans[i], now)
    {
      report := [];
      for i := 0 to |loans|
        invariant |report| == i
        invariant forall j :: 0 <= j < i ==> report[j] == Classify(loans[j], now)
      {
        report := report + [Classify(loans[i], now)];
      }
    }
  }

  /** The search criterion of `find_book`: the keyword occurs in the title or the author, ignoring ASCII case. */
  predicate Matches(b: Book, keyword: string)
  {
    Contains(Lower(b.title), Lower(keyword)) || Contains(Lower(b.author), Lower(keyword))
  }

  /** `t` is `s` with some elements left out, the rest in their order. */
  ghost predicate Subsequence<T>(t: seq<T>, s: seq<T>)
    decreases |s|
  {
    if t == [] then true
    else if s == [] then false
    else (t[0] == s[0] && Subsequence(t[1..], s[1..])) || Subsequence(t, s[1..])
  }

  /** The list comprehension of `find_book`: the matching books, in catalog order. */
  function MatchingBooks(bs: seq<Book>, keyword: string): (r: seq<Book>)
    ensures forall i :: 0 <= i < |r| ==> r[i] in bs && Matches(r[i], keyword)
    ensures forall i :: 0 <= i < |bs| && Matches(bs[i], keyword) ==> bs[i] in r
    ensures Subsequence(r, bs)
  {
    if bs == [] then []
    else
      var rest := MatchingBooks(bs[1..], keyword);
      if Matches(bs[0], keyword) then
        assert ([bs[0]] + rest)[1..] == rest;
        [bs[0]] + rest
      else
        rest
  }

  /** The comprehension keeps every matching book as many times as the catalog holds it, and no other book. */
  lemma {:induction false} MatchingBooksCounts(bs: seq<Book>, keyword: string, x: Book)
    requires x in bs
    ensures multiset(MatchingBooks(bs, keyword))[x] == if Matches(x, keyword) then multiset(bs)[x] else 0
  {
    assert bs == [bs[0]] + bs[1..];
    if x in bs[1..] {
      MatchingBooksCounts(bs[1..], keyword, x);
    }
    if Matches(bs[0], keyword) {
      assert MatchingBooks(bs, keyword) == [bs[0]] + MatchingBooks(bs[1..], keyword);
    }
  }

  /** The search ignores the case of the keyword: keywords equal up to ASCII case find the same books. */
  lemma {:induction false} SearchIgnoresKeywordCase(bs: seq<Book>, k1: string, k2: string)
    requires Lower(k1) == Lower(k2)
    ensures MatchingBooks(bs, k1) == MatchingBooks(bs, k2)
  {
    if bs != [] {
      SearchIgnoresKeywordCase(bs[1..], k1, k2);
    }
  }

  /** The loan list of every user, in order. */
  function LoanLists(us: seq<User>): (r: seq<seq<Loan>>)
    reads us
    ensures |r| == |us| && forall i :: 0 <= i < |us| ==> r[i] == us[i].loans
  {
    if us == [] then [] else LoanLists(us[..|us| - 1]) + [us[|us| - 1].loans]
  }

  /** The holder of every book, in order. */
  function Holders(bs: seq<Book>): (r: seq<Option<nat>>)
    reads bs
    ensures |r| == |bs| && forall i :: 0 <= i < |bs| ==> r[i] == bs[i].borrowedBy
  {
    if bs == [] then [] else Holders(bs[..|bs| - 1]) + [bs[|bs| - 1].borrowedBy]
  }

  /** `LibrarySystem`: the owner of all users and books. */
  class LibrarySystem {
    var users: seq<User>
    var books: seq<Book>

    /** Ids are 1..n in insertion order, and no user is above the loan limit. */
    ghost predicate Valid()
      reads this, users
    {
      (forall i :: 0 <= i < |users| ==> users[i].id == i + 1 && |users[i].loans| <= MaxLoans) &&
      (forall i :: 0 <= i < |books| ==> books[i].id == i + 1)
    }

    /** The lending state as a value. */
    ghost function Snapshot(): Catalog
      reads this, users, books
    {
      Catalog(LoanLists(users), Holders(books))
    }

    constructor ()
      ensures Valid() && users == [] && books == []
      ensures Snapshot() == Catalog([], [])
    {
      users := [];
      books := [];
    }

    /** `add_user`: the new user gets id `|users| + 1` and goes at the end, every other entry untouched. */
    method AddUser(name: string, email: string, userType: string := "member") returns (userId: nat)
      requires Valid()
      modifies this
      ensures Valid()
      ensures userId == old(|users|) + 1 && |users| == userId
      ensures users[..userId - 1] == old(users) && books == old(books)
      ensures fresh(users[userId - 1]) && users[userId - 1].id == userId
      ensures users[userId - 1].name == name && users[userId - 1].email == email
      ensures users[userId - 1].userType == userType
      ensures Snapshot() == Lending.AddUser(old(Snapshot()))
    {
      userId := |users| + 1;
      var user := new User(userId, name, email, userType);
      users := users + [user];
      assert LoanLists(users) == old(LoanLists(users)) + [[]];
    }

    /** `add_book`: the new book gets id `|books| + 1` and goes at the end, every other entry untouched. */
    method AddBook(title: string, author: string, isbn: string, genre: string) returns (bookId: nat)
      requires Valid()
      modifies this
      ensures Valid()
      ensures bookId == old(|books|) + 1 && |books| == bookId
      ensures books[..bookId - 1] == old(books) && users == old(users)
      ensures fresh(books[bookId - 1]) && books[bookId - 1].id == bookId
      ensures books[bookId - 1].title == title && books[bookId - 1].author == author
      ensures books[bookId - 1].isbn == isbn && books[bookId - 1].genre == genre
      ensures Snapshot() == Lending.AddBook(old(Snapshot()))
    {
      bookId := |books| + 1;
      var book := new Book(bookId, title, author, isbn, genre);
      books := books + [book];
      assert Holders(books) == old(Holders(books)) + [None];
    }

    /** `find_book`: exactly the books whose title or author contains the keyword, in catalog order. */
    function FindBook(keyword: string): (r: seq<Book>)
      reads this
      ensures forall i :: 0 <= i < |r| ==> r[i] in books && Matches(r[i], keyword)
      ensures forall i :: 0 <= i < |books| && Matches(books[i], keyword) ==> books[i] in r
      ensures Subsequence(r, books)
      ensures r == [] <==> forall i :: 0 <= i < |books| ==> !Matches(books[i], keyword)
    {
      MatchingBooks(books, keyword)
    }

    /** `get_user_by_id`: the first user with that id, or none. */
    method GetUserById(userId: int) returns (r: Option<User>)
      ensures r.None? <==> forall i :: 0 <= i < |users| ==> users[i].id != userId
      ensures r.Some? ==> exists i :: 0 <= i < |users| && users[i] == r.value && users[i].id == userId &&
                                      forall j :: 0 <= j < i ==> users[j].id != userId
      ensures Valid() ==> r == if 1 <= userId <= |users| then Some(users[userId - 1]) else None
    {
      for i := 0 to |users|
        invariant forall j :: 0 <= j < i ==> users[j].id != userId
      {
        if users[i].id == userId {
          return Some(users[i]);
        }
      }
      return None;
    }

    /** `get_book_by_id`: the first book with that id, or none. */
    method GetBookById(bookId: int) returns (r: Option<Book>)
      ensures r.None? <==> forall i :: 0 <= i < |books| ==> books[i].id != bookId
      ensures r.Some? ==> exists i :: 0 <= i < |books| && books[i] == r.value && books[i].id == bookId &&
                                      forall j :: 0 <= j < i ==> books[j].id != bookId
      ensures Valid() ==> r == if 1 <= bookId <= |books| then Some(books[bookId - 1]) else None
    {
      for i := 0 to |books|
        invariant forall j :: 0 <= j < i ==> books[j].id != bookId
      {
        if books[i].id == bookId {
          return Some(books[i]);
        }
      }
      return None;
    }

    /** `borrow_book`: look both ids up and, when both resolve, let the user borrow the book. */
    method BorrowBook(userId: int, bookId: int, now: int) returns (outcome: Outcome<BorrowOutcome>)
      requires Valid()
      modifies users, books
      ensures Valid()
      ensures (Snapshot(), outcome) == Lending.Borrow(old(Snapshot()), userId, bookId, now)
    {
      ghost var c := Snapshot();
      var user := GetUserById(userId);
      var book := GetBookById(bookId);
      if user.Some? && book.Some? {
        ghost var u, b := userId - 1, bookId - 1;
        var userOutcome := user.value.BorrowBook(book.value, now);
        outcome := Resolved(userOutcome);
        assert Lending.Borrow(c, userId, bookId, now).0 == Catalog(c.loans[u := users[u].loans], c.holders[b := books[b].borrowedBy]);
        forall j | 0 <= j < |users| && j != u ensures users[j].loans == c.loans[j] {
          assert users[j].id != users[u].id;
        }
        forall j | 0 <= j < |books| && j != b ensures books[j].borrowedBy == c.holders[j] {
          assert books[j].id != books[b].id;
        }
        OnlyOneUserAndOneBookChanged(c, u, b);
      } else {
        outcome := NotFound(user.None?, book.None?);
      }
    }

    /** `return_book`: look both ids up and, when both resolve, let the user return the book. */
    method ReturnBook(userId: int, bookId: int) returns (outcome: Outcome<ReturnOutcome>)
      requires Valid()
      modifies users, books
      ensures Valid()
      ensures (Snapshot(), outcome) == Lending.Return(old(Snapshot()), userId, bookId)
    {
      ghost var c := Snapshot();
      var user := GetUserById(userId);
      var book := GetBookById(bookId);
      if user.Some? && book.Some? {
        ghost var u, b := userId - 1, bookId - 1;
        var userOutcome := user.value.ReturnBook(book.value);
        outcome := Resolved(userOutcome);
        assert Lending.Return(c, userId, bookId).0 == Catalog(c.loans[u := users[u].loans], c.holders[b := books[b].borrowedBy]);
        forall j | 0 <= j < |users| && j != u ensures users[j].loans == c.loans[j] {
          assert users[j].id != users[u].id;
        }
        forall j | 0 <= j < |books| && j != b ensures books[j].borrowedBy == c.holders[j] {
          assert books[j].id != books[b].id;
        }
        OnlyOneUserAndOneBookChanged(c, u, b);
      } else {
        outcome := NotFound(user.None?, book.None?);
      }
    }

    /**
     * When, of all entries of the catalog `c` (the snapshot before an operation),
     * at most the user at position `u` and the book at position `b` changed, the
     * snapshot differs from `c` in those two entries only and the invariant holds.
     */
    lemma OnlyOneUserAndOneBookChanged(c: Catalog, u: nat, b: nat)
      requires u < |users| == |c.loans| && b < |books| == |c.holders|
      requires forall j :: 0 <= j < |users| ==> users[j].id == j + 1
      requires forall j :: 0 <= j < |books| ==> books[j].id == j + 1
      requires forall j :: 0 <= j < |users| && j != u ==> users[j].loans == c.loans[j] && |c.loans[j]| <= MaxLoans
      requires forall j :: 0 <= j < |books| && j != b ==> books[j].borrowedBy == c.holders[j]
      requires |users[u].loans| <= MaxLoans
      ensures Valid()
      ensures Snapshot() == Catalog(c.loans[u := users[u].loans], c.holders[b := books[b].borrowedBy])
    {
    }

    /** `check_overdue_books`: the due-date report of every user, user after user. */
    method CheckOverdueBooks(now: int) returns (report: seq<DueLine>)
      ensures |report| == |Flatten(LoanLists(users))|
      ensures forall k :: 0 <= k < |report| ==> report[k] == Classify(Flatten(LoanLists(users))[k], now)
    {
      ghost var lists := LoanLists(users);
      report := [];
      for i := 0 to |users|
        invariant |report| == |Flatten(lists[..i])|
        invariant forall k :: 0 <= k < |report| ==> report[k] == Classify(Flatten(lists[..i])[k], now)
      {
        var lines := users[i].CheckDueDates(now);
        assert lists[..i + 1][..i] == lists[..i];
        report := report + lines;
      }
      assert lists[..|users|] == lists;
    }
  }
}
