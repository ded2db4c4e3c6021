/**
 * The lending engine: borrow and return over the record store, the late
 * fine, and the accounting invariant that ties each book's available count
 * to its outstanding loans.
 */
module Lending {
  import opened Options
  import opened Records
  import opened Store

  // --- outstanding loans ----------------------------------------------------

  /** The number of outstanding loans of the book with this id. */
  function CountOutstanding(ts: seq<Transaction>, bookId: int): nat {
    if ts == [] then 0
    else CountOutstanding(ts[..|ts| - 1], bookId) + (if Counts(ts[|ts| - 1], bookId) then 1 else 0)
  }

  predicate Counts(t: Transaction, bookId: int) {
    t.bookId == bookId && IsOutstanding(t)
  }

  lemma CountAppend(ts: seq<Transaction>, t: Transaction, bookId: int)
    ensures CountOutstanding(ts + [t], bookId) == CountOutstanding(ts, bookId) + (if Counts(t, bookId) then 1 else 0)
  {
    assert (ts + [t])[..|ts|] == ts;
  }

  /** Replacing one transaction changes a count only by what the old and the new record contribute. */
  lemma {:induction false} CountUpdate(ts: seq<Transaction>, k: nat, t: Transaction, bookId: int)
    requires k < |ts|
    ensures CountOutstanding(ts[k := t], bookId)
         == CountOutstanding(ts, bookId) - (if Counts(ts[k], bookId) then 1 else 0) + (if Counts(t, bookId) then 1 else 0)
  {
    var n := |ts| - 1;
    if k == n {
      assert ts[k := t][..n] == ts[..n];
    } else {
      CountUpdate(ts[..n], k, t, bookId);
      assert ts[k := t][..n] == ts[..n][k := t];
    }
  }

  /** A book id no transaction mentions has no outstanding loans. */
  lemma {:induction false} CountUnmentioned(ts: seq<Transaction>, bookId: int)
    requires forall k :: 0 <= k < |ts| ==> ts[k].bookId != bookId
    ensures CountOutstanding(ts, bookId) == 0
  {
    if ts != [] {
      CountUnmentioned(ts[..|ts| - 1], bookId);
    }
  }

  // --- the invariant --------------------------------------------------------

  predicate UniqueBookIds(books: seq<Book>) {
    forall i, j :: 0 <= i < j < |books| ==> books[i].id != books[j].id
  }

  /**
   * The store is consistent when book ids are unique, no id or book reference
   * reaches a counter, and every book's available copies plus its
   * outstanding loans make up its quantity, with none of them negative.
   */
  predicate Consistent(st: Tables) {
    UniqueBookIds(st.books) &&
    IdsBelowCounters(st) &&
    (forall k :: 0 <= k < |st.transactions| ==> st.transactions[k].bookId < st.nextBookId) &&
    (forall i :: 0 <= i < |st.books| ==>
       0 <= st.books[i].available &&
       st.books[i].available + CountOutstanding(st.transactions, st.books[i].id) == st.books[i].quantity)
  }

  /** In a consistent store every book has 0 <= available <= quantity. */
  lemma StockInRange(st: Tables, i: nat)
    requires Consistent(st) && i < |st.books|
    ensures 0 <= st.books[i].available <= st.books[i].quantity
  {
  }

  lemma EmptyIsConsistent()
    ensures Consistent(Empty)
  {
  }

  // --- borrow ---------------------------------------------------------------

  datatype BorrowOutcome = BookNotFound | Unavailable | Borrowed(dueDate: int)

  /** The record borrow_book appends. */
  function NewLoan(st: Tables, memberId: int, bookId: int, now: int): Transaction {
    Transaction(st.nextTransactionId, bookId, memberId, now, now + LoanSeconds, 0, 0)
  }

  /** borrow_book: refuse a missing book or one with no copy left; otherwise record the loan and take one copy. */
  function Borrow(st: Tables, memberId: int, bookId: int, now: int): (Tables, BorrowOutcome) {
    match FindBook(st.books, bookId)
    case None => (st, BookNotFound)
    case Some(i) =>
      if st.books[i].available <= 0 then (st, Unavailable)
      else
        var b := st.books[i].(available := st.books[i].available - 1);
        (st.(books := st.books[i := b],
             transactions := st.transactions + [NewLoan(st, memberId, bookId, now)],
             nextTransactionId := st.nextTransactionId + 1),
         Borrowed(now + LoanSeconds))
  }

  /** Borrowing a missing book, or one with no copy available, changes nothing. */
  lemma BorrowRefusalChangesNothing(st: Tables, memberId: int, bookId: int, now: int)
    ensures var r := Borrow(st, memberId, bookId, now);
      (r.1 == BookNotFound <==> forall i :: 0 <= i < |st.books| ==> st.books[i].id != bookId)
      && (r.1 == Unavailable <==> exists i :: 0 <= i < |st.books| && st.books[i].id == bookId
                                   && (forall j :: 0 <= j < i ==> st.books[j].id != bookId)
                                   && st.books[i].available <= 0)
      && (!r.1.Borrowed? ==> r.0 == st)
  {
    match FindBook(st.books, bookId)
    case None =>
    case Some(i) =>
      assert st.books[i].id == bookId;
  }

  /**
   * A successful borrow appends one loan due seven days later, moves the
   * transaction counter on by one, takes exactly one copy of the first book
   * with that id, and changes nothing else.
   */
  lemma BorrowEffect(st: Tables, memberId: int, bookId: int, now: int)
    requires Borrow(st, memberId, bookId, now).1.Borrowed?
    ensures var r := Borrow(st, memberId, bookId, now).0;
      (exists i :: 0 <= i < |st.books| && st.books[i].id == bookId
        && (forall j :: 0 <= j < i ==> st.books[j].id != bookId)
        && st.books[i].available > 0
        && |r.books| == |st.books|
        && r.books[i] == st.books[i].(available := st.books[i].available - 1)
        && (forall j :: 0 <= j < |st.books| && j != i ==> r.books[j] == st.books[j]))
      && r.transactions == st.transactions
           + [Transaction(st.nextTransactionId, bookId, memberId, now, now + 7 * 86400, 0, 0)]
      && r.nextTransactionId == st.nextTransactionId + 1
      && Borrow(st, memberId, bookId, now).1.dueDate == now + 7 * 86400
      && r.members == st.members
      && r.nextBookId == st.nextBookId && r.nextMemberId == st.nextMemberId
  {
    var i := FindBook(st.books, bookId).value;
    assert st.books[i].id == bookId;
  }

  lemma BorrowPreservesConsistent(st: Tables, memberId: int, bookId: int, now: int)
    requires Consistent(st)
    ensures Consistent(Borrow(st, memberId, bookId, now).0)
  {
    var (r, outcome) := Borrow(st, memberId, bookId, now);
    if outcome.Borrowed? {
      var i := FindBook(st.books, bookId).value;
      var t := NewLoan(st, memberId, bookId, now);
      forall j | 0 <= j < |r.books|
        ensures 0 <= r.books[j].available
        ensures r.books[j].available + CountOutstanding(r.transactions, r.books[j].id) == r.books[j].quantity
      {
        CountAppend(st.transactions, t, r.books[j].id);
      }
    }
  }

  // --- return ---------------------------------------------------------------

  /** The loans return_book lists for a member: outstanding ones whose book still exists, in store order. */
  function ReturnableLoans(st: Tables, memberId: int): (r: seq<Transaction>)
    ensures forall t :: t in r <==> t in st.transactions && t.memberId == memberId && IsOutstanding(t)
                                     && FindBook(st.books, t.bookId).Some?
    ensures r == Listed(st.books, st.transactions, memberId)
  {
    Listed(st.books, st.transactions, memberId)
  }

  /** Whether return_book lists this transaction for the member. */
  predicate IsListed(books: seq<Book>, t: Transaction, memberId: int) {
    t.memberId == memberId && IsOutstanding(t) && FindBook(books, t.bookId).Some?
  }

  function Listed(books: seq<Book>, ts: seq<Transaction>, memberId: int): (r: seq<Transaction>)
    ensures forall t :: t in r <==> t in ts && IsListed(books, t, memberId)
  {
    if ts == [] then []
    else
      var n := |ts| - 1;
      var rest := Listed(books, ts[..n], memberId);
      assert ts == ts[..n] + [ts[n]];
      if IsListed(books, ts[n], memberId) then rest + [ts[n]] else rest
  }

  /** The position of the first outstanding loan with this id that belongs to this member. */
  function FindOpenLoan(ts: seq<Transaction>, transId: int, memberId: int): (r: Option<nat>)
    ensures r.Some? ==> r.value < |ts| && ts[r.value].id == transId && ts[r.value].memberId == memberId
                        && IsOutstanding(ts[r.value])
    ensures r.Some? ==> forall j :: 0 <= j < r.value ==>
                          !(ts[j].id == transId && ts[j].memberId == memberId && IsOutstanding(ts[j]))
    ensures r.None? ==> forall j :: 0 <= j < |ts| ==>
                          !(ts[j].id == transId && ts[j].memberId == memberId && IsOutstanding(ts[j]))
  {
    if ts == [] then None
    else if ts[0].id == transId && ts[0].memberId == memberId && IsOutstanding(ts[0]) then Some(0)
    else match FindOpenLoan(ts[1..], transId, memberId)
      case None => None
      case Some(k) => Some(k + 1)
  }

  /** Whole days late as return_book counts them: (int)(seconds / 86400) + 1. */
  function DaysLate(secondsLate: int): (d: int)
    requires secondsLate > 0
    ensures d >= 1
    ensures (d - 1) * SecondsPerDay <= secondsLate < d * SecondsPerDay
  {
    secondsLate / SecondsPerDay + 1
  }

  /** The fine recorded on return at time `now`: whole days late times 10.00, or the fine already on record if not late. */
  function FineOnReturn(t: Transaction, now: int): int {
    if now > t.dueDate then DaysLate(now - t.dueDate) * FinePerDayCents else t.fineCents
  }

  datatype ReturnOutcome = NothingToReturn | InvalidTransaction | Returned(fineCents: int)

  /**
   * return_book: with nothing listed, stop; otherwise pick the member's
   * outstanding loan with that id, stamp the return time and fine, and give
   * one copy back to its book if that book still exists.
   */
  function Return(st: Tables, memberId: int, transId: int, now: int): (Tables, ReturnOutcome) {
    if |ReturnableLoans(st, memberId)| == 0 then (st, NothingToReturn)
    else match FindOpenLoan(st.transactions, transId, memberId)
      case None => (st, InvalidTransaction)
      case Some(k) =>
        var t := st.transactions[k];
        var fine := FineOnReturn(t, now);
        var ts := st.transactions[k := t.(returnDate := now, fineCents := fine)];
        var bs := match FindBook(st.books, t.bookId)
          case None => st.books
          case Some(i) => st.books[i := st.books[i].(available := st.books[i].available + 1)];
        (st.(books := bs, transactions := ts), Returned(fine))
  }

  /** Without a matching outstanding loan of this member, return changes nothing. */
  lemma ReturnWithoutOpenLoanChangesNothing(st: Tables, memberId: int, transId: int, now: int)
    requires forall k :: 0 <= k < |st.transactions| ==>
               !(st.transactions[k].id == transId && st.transactions[k].memberId == memberId
                 && IsOutstanding(st.transactions[k]))
    ensures Return(st, memberId, transId, now).0 == st
    ensures !Return(st, memberId, transId, now).1.Returned?
  {
  }

  /**
   * A successful return rewrites exactly one transaction, the first whose id
   * and member match and whose return date is 0: it gets the return time and
   * the fine. The counters and the members are untouched.
   */
  lemma ReturnEffect(st: Tables, memberId: int, transId: int, now: int)
    requires Return(st, memberId, transId, now).1.Returned?
    ensures var (r, outcome) := Return(st, memberId, transId, now);
      (exists k :: 0 <= k < |st.transactions|
        && st.transactions[k].id == transId && st.transactions[k].memberId == memberId
        && st.transactions[k].returnDate == 0
        && (forall j :: 0 <= j < k ==> !(st.transactions[j].id == transId
                                          && st.transactions[j].memberId == memberId
                                          && st.transactions[j].returnDate == 0))
        && r.transactions == st.transactions[k := st.transactions[k].(returnDate := now, fineCents := outcome.fineCents)]
        && outcome.fineCents == FineOnReturn(st.transactions[k], now))
      && r.members == st.members
      && r.nextBookId == st.nextBookId && r.nextMemberId == st.nextMemberId
      && r.nextTransactionId == st.nextTransactionId
  {
    var k := FindOpenLoan(st.transactions, transId, memberId).value;
    assert st.transactions[k].id == transId;
  }

  /**
   * Return gives one copy back to the first book with the loan's id when
   * that book still exists, and changes no other book; when the book has
   * been deleted, every book is left as it was.
   */
  lemma ReturnRestock(st: Tables, memberId: int, transId: int, now: int)
    requires Return(st, memberId, transId, now).1.Returned?
    ensures var r := Return(st, memberId, transId, now).0;
      var t := st.transactions[FindOpenLoan(st.transactions, transId, memberId).value];
      |r.books| == |st.books|
      && (match FindBook(st.books, t.bookId)
          case None => r.books == st.books
          case Some(i) =>
            r.books[i] == st.books[i].(available := st.books[i].available + 1)
            && forall j :: 0 <= j < |st.books| && j != i ==> r.books[j] == st.books[j])
  {
  }

  /** 1 second late is one day; exactly one day late is already two; on time costs nothing new. */
  lemma FineExamples(t: Transaction)
    ensures FineOnReturn(t, t.dueDate + 1) == 1000
    ensures FineOnReturn(t, t.dueDate + 86400) == 2000
    ensures FineOnReturn(t, t.dueDate + 2 * 86400 + 1) == 3000
    ensures FineOnReturn(t, t.dueDate) == t.fineCents
  {
  }

  /**
   * The fine is the number of started days times 10.00, except at an exact
   * whole number of days, where the source charges one day more than a
   * ceiling would.
   */
  lemma DaysLateVersusCeiling(secondsLate: int)
    requires secondsLate > 0
    ensures var ceil := (secondsLate + SecondsPerDay - 1) / SecondsPerDay;
      DaysLate(secondsLate) == if secondsLate % SecondsPerDay == 0 then ceil + 1 else ceil
  {
  }

  lemma ReturnPreservesConsistent(st: Tables, memberId: int, transId: int, now: int)
    requires Consistent(st)
    requires now != 0
    ensures Consistent(Return(st, memberId, transId, now).0)
  {
    var (r, outcome) := Return(st, memberId, transId, now);
    if outcome.Returned? {
      var k := FindOpenLoan(st.transactions, transId, memberId).value;
      var t := st.transactions[k];
      var t' := t.(returnDate := now, fineCents := outcome.fineCents);
      assert r.transactions == st.transactions[k := t'];
      forall j | 0 <= j < |r.books|
        ensures 0 <= r.books[j].available
        ensures r.books[j].available + CountOutstanding(r.transactions, r.books[j].id) == r.books[j].quantity
      {
        CountUpdate(st.transactions, k, t', r.books[j].id);
        assert r.books[j].id == st.books[j].id;
        if r.books[j].id == t.bookId {
          assert FindBook(st.books, t.bookId) == Some(j);
        }
      }
    }
  }

  lemma AddBookPreservesConsistent(st: Tables, title: string, author: string, category: string, quantity: int)
    requires Consistent(st)
    requires quantity >= 0
    ensures Consistent(AddBook(st, title, author, category, quantity))
  {
    var r := AddBook(st, title, author, category, quantity);
    CountUnmentioned(st.transactions, st.nextBookId);
    assert r.books[|st.books|].id == st.nextBookId;
  }

  /** add_book does not check the quantity it reads: a negative one gives a book with a negative available count. */
  lemma NegativeQuantityBreaksStock(st: Tables, title: string, author: string, category: string, quantity: int)
    requires quantity < 0
    ensures !Consistent(AddBook(st, title, author, category, quantity))
  {
    var r := AddBook(st, title, author, category, quantity);
    assert r.books[|st.books|].available == quantity;
  }

  lemma DeleteBookPreservesConsistent(st: Tables, id: int)
    requires Consistent(st)
    ensures Consistent(DeleteBook(st, id).0)
  {
  }

  lemma MemberOperationsPreserveConsistent(st: Tables, id: int, name: string, email: string, password: string)
    requires Consistent(st)
    ensures Consistent(AddMember(st, name, email, password))
    ensures Consistent(DeleteMember(st, id).0)
    ensures Consistent(ResetMemberPassword(st, id, password).0)
  {
    var d := DeleteMember(st, id).0;
    match FindMemberById(st.members, id)
    case None =>
    case Some(k) =>
      forall i | 0 <= i < |d.members| ensures d.members[i].id < d.nextMemberId {
        assert d.members[i] == if i < k then st.members[i] else st.members[i + 1];
      }
  }

  /**
   * Borrow followed by the same member returning that loan: the copy comes
   * back, and the fine is 0 up to the due date and one day's fine per
   * started day after it.
   */
  /** Return of the newest transaction, when it is the member's outstanding loan and no older one shares its id. */
  lemma ReturnOfNewestLoan(mid: Tables, memberId: int, t: Transaction, n: nat, i: nat, now: int)
    requires n + 1 == |mid.transactions| && mid.transactions[n] == t
    requires t.memberId == memberId && IsOutstanding(t) && FindBook(mid.books, t.bookId) == Some(i)
    requires forall j :: 0 <= j < n ==> mid.transactions[j].id != t.id
    ensures var (r, outcome) := Return(mid, memberId, t.id, now);
      outcome == Returned(FineOnReturn(t, now)) && r.books[i].available == mid.books[i].available + 1
  {
    assert t in ReturnableLoans(mid, memberId);
    assert FindOpenLoan(mid.transactions, t.id, memberId) == Some(n);
  }

  lemma BorrowThenReturn(st: Tables, memberId: int, bookId: int, borrowed: int, now: int)
    requires Consistent(st)
    requires Borrow(st, memberId, bookId, borrowed).1.Borrowed?
    ensures var mid := Borrow(st, memberId, bookId, borrowed).0;
      var (r, outcome) := Return(mid, memberId, st.nextTransactionId, now);
      var i := FindBook(st.books, bookId).value;
      outcome.Returned?
      && outcome.fineCents == (if now > borrowed + LoanSeconds
                               then ((now - borrowed - LoanSeconds) / 86400 + 1) * 1000 else 0)
      && r.books[i].available == st.books[i].available
  {
    var mid := Borrow(st, memberId, bookId, borrowed).0;
    var n := |st.transactions|;
    var t := NewLoan(st, memberId, bookId, borrowed);
    var i := FindBook(st.books, bookId).value;
    assert mid.transactions == st.transactions + [t];
    assert mid.books[i].available == st.books[i].available - 1;
    forall j | 0 <= j < n
      ensures mid.transactions[j].id != t.id
    {
      assert mid.transactions[j] == st.transactions[j];
    }
    FindBookAt(mid.books, bookId, i);
    ReturnOfNewestLoan(mid, memberId, t, n, i, now);
  }
}
