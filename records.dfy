/**
 * The three record kinds of the lending tracker and its fixed constants.
 * C `int` and `time_t` fields are unbounded integers here; the `float` fine
 * is an integer number of cents (every fine the program computes is a whole
 * number of days times 10.00).
 */
module Records {

  /** FINE_PER_DAY (10.0) expressed in cents. */
  const FinePerDayCents: int := 1000
  const SecondsPerDay: int := 60 * 60 * 24
  const BorrowDurationDays: int := 7
  /** BORROW_DURATION_DAYS * 24 * 60 * 60: the loan period in seconds. */
  const LoanSeconds: int := BorrowDurationDays * SecondsPerDay
  const SessionTimeoutSeconds: int := 600
  const MaxLoginAttempts: nat := 3

  datatype Book = Book(
    id: int,
    title: string,
    author: string,
    category: string,
    quantity: int,
    available: int)

  /** `password` holds the obfuscated form; `firstLogin` is the C flag (non-zero means set). */
  datatype Member = Member(
    id: int,
    name: string,
    email: string,
    password: string,
    firstLogin: int)

  /** `returnDate == 0` is the "not yet returned" sentinel; `fineCents` is the fine in cents. */
  datatype Transaction = Transaction(
    id: int,
    bookId: int,
    memberId: int,
    borrowDate: int,
    dueDate: int,
    returnDate: int,
    fineCents: int)

  predicate IsOutstanding(t: Transaction) {
    t.returnDate == 0
  }
}
