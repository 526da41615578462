# Library lending core, modelled in Dafny

This project models the lending core of a small in-memory library system, `Rahmat_LMS.py`. The core has three classes:

- `User`: a user and its list of `(book, due date)` loans.
- `Book`: a book and its `borrowed_by` holder.
- `LibrarySystem`: owns the lists of users and of books. It assigns sequential ids, looks entries up by id, searches books by keyword, lends and takes back books, and reports due dates.

The model has five modules:

- `Wrappers` (wrappers.dfy): `Option`.
- `Text` (text.dfy): ASCII lower-casing and Python's substring test `needle in hay`.
- `Lending` (lending.dfy): pure values. A loan is `Loan(bookId, due)`. Each printed message becomes an outcome value that names the branch taken. `Catalog` is the whole lending state as a value: one loan list per user and one holder per book. It comes with the effect of `add_user`, `add_book`, `borrow_book` and `return_book` on it.
- `Consistency` (consistency.dfy): the invariant "a book has a holder exactly when it is on loan once, to that holder", and what each catalog operation does to it.
- `Library` (library.dfy): the classes `Book`, `User` and `LibrarySystem`. Their fields change in place. Each `LibrarySystem` method that changes state is proved to move its `Snapshot()` exactly as the matching `Lending` function says.

Time is an integer count of seconds, passed in as `now`. A loan is due `LoanPeriod = 14 * 86400` seconds after it was made. `Book.borrowedBy` holds the holder's user id. Python compares books by object identity. The model compares them by id, which is the same thing because `LibrarySystem.Valid()` keeps ids equal to positions plus one.

The model follows the code as written, including where its behaviour is easy to misread:

- `User.borrow_book` appends a loan whenever the user holds fewer than 5 loans, even when `Book.borrow` refused because the book is already held (Rahmat_LMS.py:14-16, 47-52). One might expect such a borrow to fail and change nothing; in the code the loan count grows, and the holder/loan invariant breaks. `Consistency.BorrowHeldBreaksConsistent` proves this for every such borrow. `Consistency.SameUserBorrowsTwice` shows it for one user who borrows one book twice. So the invariant is proved kept only when the book was unheld (`Consistency.BorrowUnheldKeepsConsistent`).
- `Book.return_book` clears the holder whoever holds the book. It is reached whenever the returning user has a loan of that book.
- An unknown id is reported for the user and for the book separately, since both lookups always run. `NotFound(userMissing, bookMissing)` carries both.

## Model

| member | source | states |
|---|---|---|
| `Library.Book.constructor` | Rahmat_LMS.py:39-45 | a new book stores its id, title, author, isbn and genre, and has no holder |
| `Library.Book.Borrow` | Rahmat_LMS.py:47-52 | an unheld book takes the user as holder; a held book keeps its holder and reports who holds it |
| `Library.Book.ReturnBook` | Rahmat_LMS.py:54-59 | afterwards the book has no holder; it reports the former holder, or that it was not borrowed |
| `Library.User.constructor` | Rahmat_LMS.py:6-11 | a new user stores its id, name, email and type, with no loans |
| `Library.User.BorrowBook` | Rahmat_LMS.py:13-19 | at 5 or more loans nothing changes and the limit is reported; below 5 the loan `(book, now + 14 days)` is appended after the earlier loans, and the book's holder becomes this user only if it was unheld |
| `Library.User.ReturnBook` | Rahmat_LMS.py:21-29 | with no loan of the book nothing changes; otherwise exactly the first such loan is removed, the others keep their order, and the book ends unheld |
| `Library.User.CheckDueDates` | Rahmat_LMS.py:31-36 | one report line per loan, in list order, each classified at `now` |
| `Lending.Classify` | Rahmat_LMS.py:33-36 | a loan is reported overdue exactly when its due time is strictly before `now`, and otherwise with its due time |
| `Lending.FirstLoanIndex` | Rahmat_LMS.py:22-23 | the position of the first loan of a book, all earlier loans being of other books, or none when no loan is of that book |
| `Lending.RemoveFirstAt` | Rahmat_LMS.py:25 | `list.remove` of the found pair removes the loan at the found position, since no earlier loan is equal to it |
| `Library.LibrarySystem.constructor` | Rahmat_LMS.py:62-64 | the catalog starts with no users and no books |
| `Library.LibrarySystem.AddUser` | Rahmat_LMS.py:66-70 | the new user gets id = old number of users + 1 and goes at the end; existing users and all books are untouched; ids stay exactly 1..n |
| `Library.LibrarySystem.AddBook` | Rahmat_LMS.py:72-76 | the new book gets id = old number of books + 1, has no holder and goes at the end; everything else is untouched; ids stay exactly 1..n |
| `Lending.AddUser` | Rahmat_LMS.py:66-69 | adds one empty loan list after the existing ones and leaves the holders alone |
| `Lending.AddBook` | Rahmat_LMS.py:72-75 | adds one unheld book after the existing ones and leaves the loans alone |
| `Library.MatchingBooks` | Rahmat_LMS.py:79 | the result holds exactly the books whose lower-cased title or author contains the lower-cased keyword, in their catalog order |
| `Library.MatchingBooksCounts` | Rahmat_LMS.py:79 | each matching book appears in the result as many times as in the catalog, and a book that does not match appears not at all |
| `Library.LibrarySystem.FindBook` | Rahmat_LMS.py:78-85 | exactly the catalog's matching books, in catalog order; the result is empty exactly when no book matches |
| `Library.SearchIgnoresKeywordCase` | Rahmat_LMS.py:79 | two keywords that agree up to ASCII case find the same books |
| `Text.Lower` | Rahmat_LMS.py:79 | `str.lower()` for ASCII only: same length, each character ASCII-lower-cased, every other character kept |
| `Lending.RemoveFirst` | Rahmat_LMS.py:25 | `list.remove(x)` on a list containing `x` leaves exactly one element fewer |
| `Lending.RemoveFirstCounts` | Rahmat_LMS.py:25 | `list.remove(x)` takes away exactly one copy of `x`, and every other element keeps its count |
| `Text.Contains` | Rahmat_LMS.py:79 | `needle in hay` holds exactly when the needle occurs at some position of `hay` |
| `Text.DuneExample` | Rahmat_LMS.py:79 | "dune" is found in "Dune", "HERBERT" in "Frank Herbert", and "xyz" is not found in "Dune" |
| `Library.LibrarySystem.GetUserById` | Rahmat_LMS.py:99-104 | returns the first user with that id, or none exactly when no user has it; with sequential ids, id k in 1..n gives the user at position k-1 |
| `Library.LibrarySystem.GetBookById` | Rahmat_LMS.py:106-111 | returns the first book with that id, or none exactly when no book has it; with sequential ids, id k in 1..n gives the book at position k-1 |
| `Library.LibrarySystem.BorrowBook` | Rahmat_LMS.py:87-91 | keeps `Valid()` (ids exactly 1..n, at most 5 loans per user), and the new lending state and the outcome are those of `Lending.Borrow` on the old state |
| `Library.LibrarySystem.ReturnBook` | Rahmat_LMS.py:93-97 | keeps `Valid()` (ids exactly 1..n, at most 5 loans per user), and the new lending state and the outcome are those of `Lending.Return` on the old state |
| `Lending.Borrow` | Rahmat_LMS.py:87-91 | when either id does not resolve, nothing changes and the missing id(s) are reported; otherwise it changes only that user's loans and that book's holder, and the outcome is `Resolved` |
| `Lending.Return` | Rahmat_LMS.py:93-97 | when either id does not resolve, nothing changes and the missing id(s) are reported; otherwise it changes only that user's loans and that book's holder, and the outcome is `Resolved` |
| `Library.LibrarySystem.CheckOverdueBooks` | Rahmat_LMS.py:113-116 | one line per loan of every user, user after user and each user's loans in order, classified at `now` |
| `Lending.FlattenHasEveryLoan` | Rahmat_LMS.py:115-116 | a loan is in the overdue check's sequence exactly when it is in some user's loan list |
| `Consistency.HeldIffOnLoan` | Rahmat_LMS.py:47-50 | under the invariant, a book has a holder exactly when some user's loan list contains it |
| `Consistency.HolderHasLoan` | Rahmat_LMS.py:47-50 | under the invariant, a book's holder is an existing user who has a loan of it |
| `Consistency.EmptyConsistent` | Rahmat_LMS.py:62-64 | the empty catalog satisfies the invariant and the loan limit |
| `Consistency.AddUserKeepsConsistent` | Rahmat_LMS.py:66-70 | adding a user keeps the invariant |
| `Consistency.AddBookKeepsConsistent` | Rahmat_LMS.py:72-76 | adding a book keeps the invariant, because no loan can name the new id |
| `Consistency.BorrowKeepsLimit` | Rahmat_LMS.py:13-19 | borrowing never takes a user above 5 loans |
| `Consistency.ReturnKeepsLimit` | Rahmat_LMS.py:21-29 | returning never takes a user above 5 loans |
| `Consistency.BorrowAtLimitChangesNothing` | Rahmat_LMS.py:14-19 | a user with 5 or more loans is refused, and neither the book nor any loan list changes |
| `Consistency.BorrowUnheldKeepsConsistent` | Rahmat_LMS.py:13-16 | borrowing a book nobody holds keeps the invariant |
| `Consistency.BorrowHeldBreaksConsistent` | Rahmat_LMS.py:14-16 | borrowing a held book by a user below the limit always breaks the invariant: the book is then on loan twice |
| `Consistency.ReturnKeepsConsistent` | Rahmat_LMS.py:21-27 | returning keeps the invariant |
| `Consistency.ReturnNotOnLoanChangesNothing` | Rahmat_LMS.py:28-29 | returning a book the user has no loan of is refused and changes nothing |
| `Consistency.BorrowThenReturn` | Rahmat_LMS.py:13-29 | borrowing an unheld book below the limit, with no earlier loan of it, and then returning it restores the holder and every loan list exactly |
| `Consistency.SameUserBorrowsTwice` | Rahmat_LMS.py:87-97 | one user borrows one book twice: both borrows go through, the book ends on loan twice, and after one return it is unheld while a loan of it remains |

## Left out

- The interactive `main` loop (Rahmat_LMS.py:119-186): the menu, `input()`, `int()` parsing and its `ValueError` handling. This is console I/O glue. The catalog operations take already-parsed integer ids.
- The text of every `print`. Each branch is returned as an outcome value instead. `find_book` returns the matching books rather than printing them.
- `datetime.now()` is not modelled as a clock. It becomes the integer parameter `now`. `check_due_dates` reads the clock again for every loan, while the model classifies all loans against one `now`.
- `Library.User.BorrowBook`: does not model the `OverflowError` that Python's `datetime` raises when `now + 14 days` passes year 9999, because time is an unbounded integer here.
- `Library.User.CheckDueDates`: reports the full due time, not `due_date.date()`, because turning the time into a calendar date is output formatting.
- `str.lower()` is modelled for ASCII letters only. Other characters are kept as they are, so the model does not capture Python's full Unicode case mapping.
- `email`, `user_type`, `isbn` and `genre` are stored strings with no logic attached.
- `borrowed_by` and a loan's book are Python object references. The model stores ids instead. Python compares a loan's book by identity (Rahmat_LMS.py:23, 25). Inside a `LibrarySystem` no two books share an id (`LibrarySystem.Valid()`), so comparing ids is comparing identities there. `User.ReturnBook` called directly with a different `Book` object that has a loaned book's id would find that loan, where Python would not.
