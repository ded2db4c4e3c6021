/**
 * The running system: the global tables, counters and activity time of the
 * program as the fields of one object, with each librarian, member and
 * session operation as a method that updates them in place. Every method is
 * proved to leave exactly the state the matching function of `Store`,
 * `Lending` or `Auth` describes, so the lemmas proved there hold of it.
 */
module Library {
  import opened Options
  import opened Records
  import opened Store
  import Lending
  import Auth
  import RecordFormat
  import CredentialCodec
  import PasswordPolicy

  // --- start-up --------------------------------------------------------------

  /** A data file's rows: none when the file cannot be opened, else what the load loop keeps. */
  function LoadedBooks(file: Option<string>): seq<Book> {
    match file case None => [] case Some(text) => RecordFormat.ParseBooks(text)
  }

  function LoadedMembers(file: Option<string>): seq<Member> {
    match file case None => [] case Some(text) => RecordFormat.ParseMembers(text)
  }

  function LoadedTransactions(file: Option<string>): seq<Transaction> {
    match file case None => [] case Some(text) => RecordFormat.ParseTransactions(text)
  }

  /** The three loads of initialize_system, from the empty store: rows in file order, counters seeded past every loaded id. */
  function LoadedTables(booksFile: Option<string>, membersFile: Option<string>, transactionsFile: Option<string>): Tables {
    var bs := LoadedBooks(booksFile);
    var ms := LoadedMembers(membersFile);
    var ts := LoadedTransactions(transactionsFile);
    Tables(bs, ms, ts,
           RecordFormat.SeedNextId(1, RecordFormat.BookIds(bs)),
           RecordFormat.SeedNextId(1, RecordFormat.MemberIds(ms)),
           RecordFormat.SeedNextId(1, RecordFormat.TransactionIds(ts)))
  }

  /** The three loads, each appending to an empty table from a counter at 1, leave exactly the loaded tables. */
  lemma LoadedFromEmpty(st: Tables, booksFile: Option<string>, membersFile: Option<string>, transactionsFile: Option<string>)
    requires st.books == [] + LoadedBooks(booksFile)
    requires st.members == [] + LoadedMembers(membersFile)
    requires st.transactions == [] + LoadedTransactions(transactionsFile)
    requires st.nextBookId == RecordFormat.SeedNextId(1, RecordFormat.BookIds(LoadedBooks(booksFile)))
    requires st.nextMemberId == RecordFormat.SeedNextId(1, RecordFormat.MemberIds(LoadedMembers(membersFile)))
    requires st.nextTransactionId == RecordFormat.SeedNextId(1, RecordFormat.TransactionIds(LoadedTransactions(transactionsFile)))
    ensures st == LoadedTables(booksFile, membersFile, transactionsFile)
  {
    assert [] + LoadedBooks(booksFile) == LoadedBooks(booksFile);
    assert [] + LoadedMembers(membersFile) == LoadedMembers(membersFile);
    assert [] + LoadedTransactions(transactionsFile) == LoadedTransactions(transactionsFile);
  }

  /**
   * After loading, every counter is above every id of its table (and at
   * least 1), and equals 1 or one more than some loaded id.
   */
  lemma LoadSeedsCounters(booksFile: Option<string>, membersFile: Option<string>, transactionsFile: Option<string>)
    ensures var st := LoadedTables(booksFile, membersFile, transactionsFile);
      IdsBelowCounters(st)
      && st.nextBookId >= 1 && st.nextMemberId >= 1 && st.nextTransactionId >= 1
      && (st.nextBookId == 1 || exists i :: 0 <= i < |st.books| && st.nextBookId == st.books[i].id + 1)
      && (st.nextMemberId == 1 || exists i :: 0 <= i < |st.members| && st.nextMemberId == st.members[i].id + 1)
      && (st.nextTransactionId == 1
          || exists i :: 0 <= i < |st.transactions| && st.nextTransactionId == st.transactions[i].id + 1)
  {
    BooksSeeded(LoadedBooks(booksFile));
    MembersSeeded(LoadedMembers(membersFile));
    TransactionsSeeded(LoadedTransactions(transactionsFile));
  }

  lemma BooksSeeded(bs: seq<Book>)
    ensures var n := RecordFormat.SeedNextId(1, RecordFormat.BookIds(bs));
      n >= 1 && (forall i :: 0 <= i < |bs| ==> bs[i].id < n)
      && (n == 1 || exists i :: 0 <= i < |bs| && n == bs[i].id + 1)
  {
    var ids := RecordFormat.BookIds(bs);
    var n := RecordFormat.SeedNextId(1, ids);
    assert forall i :: 0 <= i < |bs| ==> ids[i] == bs[i].id;
    if n != 1 {
      var i :| 0 <= i < |ids| && n == ids[i] + 1;
      assert n == bs[i].id + 1;
    }
  }

  lemma MembersSeeded(ms: seq<Member>)
    ensures var n := RecordFormat.SeedNextId(1, RecordFormat.MemberIds(ms));
      n >= 1 && (forall i :: 0 <= i < |ms| ==> ms[i].id < n)
      && (n == 1 || exists i :: 0 <= i < |ms| && n == ms[i].id + 1)
  {
    var ids := RecordFormat.MemberIds(ms);
    var n := RecordFormat.SeedNextId(1, ids);
    assert forall i :: 0 <= i < |ms| ==> ids[i] == ms[i].id;
    if n != 1 {
      var i :| 0 <= i < |ids| && n == ids[i] + 1;
      assert n == ms[i].id + 1;
    }
  }

  lemma TransactionsSeeded(ts: seq<Transaction>)
    ensures var n := RecordFormat.SeedNextId(1, RecordFormat.TransactionIds(ts));
      n >= 1 && (forall i :: 0 <= i < |ts| ==> ts[i].id < n)
      && (n == 1 || exists i :: 0 <= i < |ts| && n == ts[i].id + 1)
  {
    var ids := RecordFormat.TransactionIds(ts);
    var n := RecordFormat.SeedNextId(1, ids);
    assert forall i :: 0 <= i < |ts| ==> ids[i] == ts[i].id;
    if n != 1 {
      var i :| 0 <= i < |ids| && n == ids[i] + 1;
      assert n == ts[i].id + 1;
    }
  }

  /**
   * Saving the tables and starting again loads the same rows; the counters
   * come back as one more than the largest surviving id, which is no more
   * than they were.
   */
  lemma SaveThenLoad(st: Tables)
    requires IdsBelowCounters(st) && st.nextBookId >= 1 && st.nextMemberId >= 1 && st.nextTransactionId >= 1
    requires forall i :: 0 <= i < |st.books| ==> RecordFormat.BookStorable(st.books[i])
    requires forall i :: 0 <= i < |st.members| ==> RecordFormat.MemberStorable(st.members[i])
    ensures var r := LoadedTables(Some(RecordFormat.BooksText(st.books)), Some(RecordFormat.MembersText(st.members)),
                                  Some(RecordFormat.TransactionsText(st.transactions)));
      r.books == st.books && r.members == st.members && r.transactions == st.transactions
      && r.nextBookId <= st.nextBookId && r.nextMemberId <= st.nextMemberId
      && r.nextTransactionId <= st.nextTransactionId
  {
    ReloadKeepsRows(st);
    BooksSeeded(st.books);
    MembersSeeded(st.members);
    TransactionsSeeded(st.transactions);
  }

  /** Whatever the counters were, reloading the saved rows gives the same rows, with counters above their ids. */
  lemma ReloadKeepsRows(st: Tables)
    requires forall i :: 0 <= i < |st.books| ==> RecordFormat.BookStorable(st.books[i])
    requires forall i :: 0 <= i < |st.members| ==> RecordFormat.MemberStorable(st.members[i])
    ensures var r := LoadedTables(Some(RecordFormat.BooksText(st.books)), Some(RecordFormat.MembersText(st.members)),
                                  Some(RecordFormat.TransactionsText(st.transactions)));
      r.books == st.books && r.members == st.members && r.transactions == st.transactions
      && r.nextBookId == RecordFormat.SeedNextId(1, RecordFormat.BookIds(st.books))
      && r.nextMemberId == RecordFormat.SeedNextId(1, RecordFormat.MemberIds(st.members))
      && r.nextTransactionId == RecordFormat.SeedNextId(1, RecordFormat.TransactionIds(st.transactions))
      && IdsBelowCounters(r)
  {
    BooksReload(st.books);
    MembersReload(st.members);
    TransactionsReload(st.transactions);
    LoadedTablesOf(Some(RecordFormat.BooksText(st.books)), Some(RecordFormat.MembersText(st.members)),
                   Some(RecordFormat.TransactionsText(st.transactions)), st.books, st.members, st.transactions);
    BooksSeeded(st.books);
    MembersSeeded(st.members);
    TransactionsSeeded(st.transactions);
  }

  lemma BooksReload(bs: seq<Book>)
    requires forall i :: 0 <= i < |bs| ==> RecordFormat.BookStorable(bs[i])
    ensures LoadedBooks(Some(RecordFormat.BooksText(bs))) == bs
  {
    RecordFormat.BooksRoundTrip(bs);
  }

  lemma MembersReload(ms: seq<Member>)
    requires forall i :: 0 <= i < |ms| ==> RecordFormat.MemberStorable(ms[i])
    ensures LoadedMembers(Some(RecordFormat.MembersText(ms))) == ms
  {
    RecordFormat.MembersRoundTrip(ms);
  }

  lemma TransactionsReload(ts: seq<Transaction>)
    ensures LoadedTransactions(Some(RecordFormat.TransactionsText(ts))) == ts
  {
    RecordFormat.TransactionsRoundTrip(ts);
  }

  /** The start-up state built from the rows the three files give. */
  lemma LoadedTablesOf(booksFile: Option<string>, membersFile: Option<string>, transactionsFile: Option<string>,
                       bs: seq<Book>, ms: seq<Member>, ts: seq<Transaction>)
    requires LoadedBooks(booksFile) == bs && LoadedMembers(membersFile) == ms && LoadedTransactions(transactionsFile) == ts
    ensures LoadedTables(booksFile, membersFile, transactionsFile)
         == Tables(bs, ms, ts, RecordFormat.SeedNextId(1, RecordFormat.BookIds(bs)),
                   RecordFormat.SeedNextId(1, RecordFormat.MemberIds(ms)),
                   RecordFormat.SeedNextId(1, RecordFormat.TransactionIds(ts)))
  {
  }

  /**
   * Counters are not saved: when the book with the largest id is deleted,
   * the next start seeds the counter from the survivors, and the next added
   * book is issued the deleted book's id again.
   */
  lemma RestartReusesDeletedId(b: Book, title: string, author: string, category: string, quantity: int)
    requires b.id == 1 && RecordFormat.BookStorable(b)
    ensures var st := AddBook(Empty, b.title, b.author, b.category, b.quantity);
      var (afterDelete, deleted) := DeleteBook(st, 1);
      var restarted := LoadedTables(Some(RecordFormat.BooksText(afterDelete.books)), None, None);
      deleted && st.books[0].id == 1
      && AddBook(afterDelete, title, author, category, quantity).books[0].id == 2
      && AddBook(restarted, title, author, category, quantity).books[0].id == 1
  {
    var st := AddBook(Empty, b.title, b.author, b.category, b.quantity);
    assert FindBook(st.books, 1) == Some(0);
    assert DeleteBook(st, 1).0.books == [];
  }

  /** A book added to the empty store, lent to member 7 and deleted: only the loan is left, and the store is consistent. */
  lemma LendThenDelete(title: string, author: string, category: string, borrowed: int)
    ensures var st1 := AddBook(Empty, title, author, category, 1);
      var (st2, lent) := Lending.Borrow(st1, 7, 1, borrowed);
      var (st3, deleted) := DeleteBook(st2, 1);
      lent.Borrowed? && deleted && Lending.Consistent(st3)
      && st3 == Tables([], [], [Lending.NewLoan(st1, 7, 1, borrowed)], 2, 1, 2)
  {
    var st1 := AddBook(Empty, title, author, category, 1);
    assert FindBook(st1.books, 1) == Some(0);
    var st2 := Lending.Borrow(st1, 7, 1, borrowed).0;
    assert FindBook(st2.books, 1) == Some(0);
  }

  /** Loading files that hold one loan and no book or member: the book counter starts again at 1. */
  lemma ReloadLoanOnly(t: Transaction)
    ensures LoadedTables(Some(RecordFormat.BooksText([])), Some(RecordFormat.MembersText([])),
                         Some(RecordFormat.TransactionsText([t])))
         == Tables([], [], [t], 1, 1, RecordFormat.SeedStep(1, t.id))
  {
    TransactionsReload([t]);
    assert RecordFormat.BooksText([]) == "" && RecordFormat.MembersText([]) == "";
    LoadedTablesOf(Some(""), Some(""), Some(RecordFormat.TransactionsText([t])), [], [], [t]);
    assert RecordFormat.TransactionIds([t]) == [t.id];
    assert [t.id][..0] == [];
  }

  /** A new book issued id 1 beside member 7's open loan 1 of book 1: the store is off, and returning the loan adds a copy. */
  lemma ReusedIdInheritsLoan(restarted: Tables, t: Transaction, title: string, author: string, category: string, now: int)
    requires restarted.books == [] && restarted.transactions == [t] && restarted.nextBookId == 1
    requires t.id == 1 && t.bookId == 1 && t.memberId == 7 && Records.IsOutstanding(t)
    ensures var st4 := AddBook(restarted, title, author, category, 1);
      var (st5, returned) := Lending.Return(st4, 7, 1, now);
      !Lending.Consistent(restarted) && !Lending.Consistent(st4)
      && st4.books == [Book(1, title, author, category, 1, 1)] && returned.Returned?
      && st5.books == [Book(1, title, author, category, 1, 2)]
  {
    var st4 := AddBook(restarted, title, author, category, 1);
    Lending.CountAppend([], t, 1);
    assert [] + [t] == [t];
    assert Lending.CountOutstanding(st4.transactions, 1) == 1;
    assert FindBook(st4.books, 1) == Some(0);
    Lending.ReturnOfNewestLoan(st4, 7, t, 0, 0, now);
  }

  /**
   * Loans are saved but the book counter is not, and delete_book does not
   * look at loans: a book deleted while lent out leaves its loan behind, the
   * next start hands its id to a new book, and returning the old loan then
   * gives that new book a copy it never lent.
   */
  lemma RestartBreaksStock(title: string, author: string, category: string, borrowed: int, now: int)
    ensures var st1 := AddBook(Empty, title, author, category, 1);
      var (st2, lent) := Lending.Borrow(st1, 7, 1, borrowed);
      var (st3, deleted) := DeleteBook(st2, 1);
      var restarted := LoadedTables(Some(RecordFormat.BooksText(st3.books)), Some(RecordFormat.MembersText(st3.members)),
                                    Some(RecordFormat.TransactionsText(st3.transactions)));
      var st4 := AddBook(restarted, title, author, category, 1);
      var (st5, returned) := Lending.Return(st4, 7, 1, now);
      lent.Borrowed? && deleted && Lending.Consistent(st3)
      && !Lending.Consistent(restarted) && !Lending.Consistent(st4)
      && st4.books == [Book(1, title, author, category, 1, 1)] && returned.Returned?
      && st5.books == [Book(1, title, author, category, 1, 2)]
  {
    var st1 := AddBook(Empty, title, author, category, 1);
    var t := Lending.NewLoan(st1, 7, 1, borrowed);
    LendThenDelete(title, author, category, borrowed);
    ReloadLoanOnly(t);
    var restarted := Tables([], [], [t], 1, 1, RecordFormat.SeedStep(1, t.id));
    ReusedIdInheritsLoan(restarted, t, title, author, category, now);
  }

  /** The start-up the stock invariant needs: the book counter also raised past every book a loaded loan refers to. */
  function SeedPastLoans(st: Tables): (r: Tables)
    ensures forall k :: 0 <= k < |r.transactions| ==> r.transactions[k].bookId < r.nextBookId
    ensures r.nextBookId >= st.nextBookId && r == st.(nextBookId := r.nextBookId)
  {
    st.(nextBookId := RecordFormat.SeedNextId(st.nextBookId, RecordFormat.Keys((t: Transaction) => t.bookId, st.transactions)))
  }

  /** With that seeding, a consistent store saved and loaded again is still consistent. */
  lemma RestartPastLoansKeepsStock(st: Tables)
    requires Lending.Consistent(st)
    requires forall i :: 0 <= i < |st.books| ==> RecordFormat.BookStorable(st.books[i])
    requires forall i :: 0 <= i < |st.members| ==> RecordFormat.MemberStorable(st.members[i])
    ensures Lending.Consistent(SeedPastLoans(LoadedTables(Some(RecordFormat.BooksText(st.books)), Some(RecordFormat.MembersText(st.members)),
                                                          Some(RecordFormat.TransactionsText(st.transactions)))))
  {
    var restarted := LoadedTables(Some(RecordFormat.BooksText(st.books)), Some(RecordFormat.MembersText(st.members)),
                                  Some(RecordFormat.TransactionsText(st.transactions)));
    ReloadKeepsRows(st);
    PastLoansKeepsStock(st, restarted);
  }

  lemma PastLoansKeepsStock(st: Tables, restarted: Tables)
    requires Lending.Consistent(st) && IdsBelowCounters(restarted)
    requires restarted.books == st.books && restarted.transactions == st.transactions
    ensures Lending.Consistent(SeedPastLoans(restarted))
  {
  }

  /** initialize_system: the three loads, then the default librarian if no member was loaded. */
  function Initialized(booksFile: Option<string>, membersFile: Option<string>, transactionsFile: Option<string>): Tables {
    Auth.Bootstrap(LoadedTables(booksFile, membersFile, transactionsFile), CredentialCodec.Encrypt(Auth.DefaultAdminPassword))
  }

  /**
   * A first start without data files, and any bootstrap of the empty store,
   * satisfies the stock and id invariant that every operation preserves.
   */
  lemma FreshStartIsConsistent(stored: string)
    ensures Lending.Consistent(Auth.Bootstrap(Empty, stored))
    ensures Lending.Consistent(Initialized(None, None, None))
  {
    assert LoadedTables(None, None, None) == Empty;
  }

  // --- the running program ---------------------------------------------------

  class Library {
    var books: seq<Book>
    var members: seq<Member>
    var transactions: seq<Transaction>
    var nextBookId: int
    var nextMemberId: int
    var nextTransactionId: int
    /** last_activity_time, in seconds; a global, so 0 until the first login. */
    var lastActivity: int

    /** The tables and counters as a value. */
    function St(): Tables
      reads this
    {
      Tables(books, members, transactions, nextBookId, nextMemberId, nextTransactionId)
    }

    /** initialize_system, given the contents of the three data files (None for one that cannot be opened). */
    constructor (booksFile: Option<string>, membersFile: Option<string>, transactionsFile: Option<string>)
      ensures St() == Initialized(booksFile, membersFile, transactionsFile)
      ensures lastActivity == 0
    {
      books, members, transactions := [], [], [];
      nextBookId, nextMemberId, nextTransactionId := 1, 1, 1;
      lastActivity := 0;
      new;
      LoadBooks(booksFile);
      LoadMembers(membersFile);
      LoadTransactions(transactionsFile);
      LoadedFromEmpty(St(), booksFile, membersFile, transactionsFile);
      CreateDefaultAdmin();
    }

    /** The last step of initialize_system: with no member loaded, add the librarian account with the default password. */
    method CreateDefaultAdmin()
      modifies this
      ensures St() == Auth.Bootstrap(old(St()), CredentialCodec.Encrypt(Auth.DefaultAdminPassword))
      ensures lastActivity == old(lastActivity)
    {
      if |members| == 0 {
        var stored := CredentialCodec.CaesarEncrypt(Auth.DefaultAdminPassword);
        members := members + [Auth.DefaultAdmin(nextMemberId, stored)];
        nextMemberId := nextMemberId + 1;
      }
    }

    // --- loading -------------------------------------------------------------

    /** load_books: append the records the file's lines give, raising the counter past each id. */
    method LoadBooks(file: Option<string>)
      modifies this
      ensures books == old(books) + LoadedBooks(file)
      ensures nextBookId == RecordFormat.SeedNextId(old(nextBookId), RecordFormat.BookIds(LoadedBooks(file)))
      ensures members == old(members) && transactions == old(transactions) && lastActivity == old(lastActivity)
      ensures nextMemberId == old(nextMemberId) && nextTransactionId == old(nextTransactionId)
    {
      if file.None? {
        return;
      }
      RecordFormat.ParseAllBooks(file.value);
      var rows, next := ReadRows(file.value, RecordFormat.ParseBook, (b: Book) => b.id, nextBookId);
      assert RecordFormat.Keys((b: Book) => b.id, rows) == RecordFormat.BookIds(rows);
      books := books + rows;
      nextBookId := next;
    }

    /** load_members: append the records the file's lines give, raising the counter past each id. */
    method LoadMembers(file: Option<string>)
      modifies this
      ensures members == old(members) + LoadedMembers(file)
      ensures nextMemberId == RecordFormat.SeedNextId(old(nextMemberId), RecordFormat.MemberIds(LoadedMembers(file)))
      ensures books == old(books) && transactions == old(transactions) && lastActivity == old(lastActivity)
      ensures nextBookId == old(nextBookId) && nextTransactionId == old(nextTransactionId)
    {
      if file.None? {
        return;
      }
      RecordFormat.ParseAllMembers(file.value);
      var rows, next := ReadRows(file.value, RecordFormat.ParseMember, (m: Member) => m.id, nextMemberId);
      assert RecordFormat.Keys((m: Member) => m.id, rows) == RecordFormat.MemberIds(rows);
      members := members + rows;
      nextMemberId := next;
    }

    /** load_transactions: append the records the file's lines give, raising the counter past each id. */
    method LoadTransactions(file: Option<string>)
      modifies this
      ensures transactions == old(transactions) + LoadedTransactions(file)
      ensures nextTransactionId == RecordFormat.SeedNextId(old(nextTransactionId), RecordFormat.TransactionIds(LoadedTransactions(file)))
      ensures books == old(books) && members == old(members) && lastActivity == old(lastActivity)
      ensures nextBookId == old(nextBookId) && nextMemberId == old(nextMemberId)
    {
      if file.None? {
        return;
      }
      RecordFormat.ParseAllTransactions(file.value);
      var rows, next := ReadRows(file.value, RecordFormat.ParseTransaction, (t: Transaction) => t.id, nextTransactionId);
      assert RecordFormat.Keys((t: Transaction) => t.id, rows) == RecordFormat.TransactionIds(rows);
      transactions := transactions + rows;
      nextTransactionId := next;
    }

    // --- finds ---------------------------------------------------------------

    /** find_book_by_id. */
    method FindBookIndex(id: int) returns (r: Option<nat>)
      ensures r == FindBook(books, id)
    {
      var i := 0;
      while i < |books|
        invariant 0 <= i <= |books|
        invariant forall j :: 0 <= j < i ==> books[j].id != id
      {
        if books[i].id == id {
          FindBookAt(books, id, i);
          return Some(i);
        }
        i := i + 1;
      }
      return None;
    }

    /** find_member_by_id. */
    method FindMemberIndex(id: int) returns (r: Option<nat>)
      ensures r == FindMemberById(members, id)
    {
      var i := 0;
      while i < |members|
        invariant 0 <= i <= |members|
        invariant forall j :: 0 <= j < i ==> members[j].id != id
      {
        if members[i].id == id {
          FindMemberByIdAt(members, id, i);
          return Some(i);
        }
        i := i + 1;
      }
      return None;
    }

    /** find_member_by_name. */
    method FindMemberNamed(name: string) returns (r: Option<nat>)
      ensures r == FindMemberByName(members, name)
    {
      var i := 0;
      while i < |members|
        invariant 0 <= i <= |members|
        invariant forall j :: 0 <= j < i ==> members[j].name != name
      {
        if members[i].name == name {
          FindMemberByNameAt(members, name, i);
          return Some(i);
        }
        i := i + 1;
      }
      return None;
    }

    // --- librarian operations ------------------------------------------------

    /** add_book. */
    method AddBook(title: string, author: string, category: string, quantity: int) returns (id: int)
      modifies this
      ensures St() == Store.AddBook(old(St()), title, author, category, quantity)
      ensures id == old(nextBookId)
      ensures lastActivity == old(lastActivity)
    {
      id := nextBookId;
      nextBookId := nextBookId + 1;
      books := books + [Book(id, title, author, category, quantity, quantity)];
    }

    /** delete_book: the search for the first match, then the shift-down over its slot. */
    method DeleteBook(id: int) returns (deleted: bool)
      modifies this
      ensures (St(), deleted) == Store.DeleteBook(old(St()), id)
      ensures lastActivity == old(lastActivity)
    {
      var found := FindBookIndex(id);
      if found.None? {
        return false;
      }
      books := ShiftDown(books, found.value);
      return true;
    }

    /** add_member: the first typed password the member rule accepts is stored encrypted; none accepted, nothing is added. */
    method AddMember(name: string, email: string, typed: seq<string>) returns (added: bool)
      modifies this
      ensures match Auth.FirstValidMemberPassword(typed)
        case None => St() == old(St()) && !added
        case Some(k) => St() == Store.AddMember(old(St()), name, email, typed[k]) && added
      ensures lastActivity == old(lastActivity)
    {
      var k := FirstValidMemberPassword(typed);
      if k.None? {
        return false;
      }
      var stored := CredentialCodec.CaesarEncrypt(typed[k.value]);
      members := members + [Member(nextMemberId, name, email, stored, 1)];
      nextMemberId := nextMemberId + 1;
      return true;
    }

    /** delete_member: the search for the first match, then the shift-down over its slot. */
    method DeleteMember(id: int) returns (deleted: bool)
      modifies this
      ensures (St(), deleted) == Store.DeleteMember(old(St()), id)
      ensures lastActivity == old(lastActivity)
    {
      var found := FindMemberIndex(id);
      if found.None? {
        return false;
      }
      members := ShiftDown(members, found.value);
      return true;
    }

    /** reset_member_password: an unknown id changes nothing; else the first accepted password is stored and first login re-armed. */
    method ResetMemberPassword(memberId: int, typed: seq<string>) returns (reset: bool)
      modifies this
      ensures FindMemberById(old(members), memberId).None? ==> St() == old(St()) && !reset
      ensures FindMemberById(old(members), memberId).Some? ==>
        match Auth.FirstValidMemberPassword(typed)
        case None => St() == old(St()) && !reset
        case Some(k) => (St(), reset) == Store.ResetMemberPassword(old(St()), memberId, typed[k])
      ensures lastActivity == old(lastActivity)
    {
      var found := FindMemberIndex(memberId);
      if found.None? {
        return false;
      }
      var k := FirstValidMemberPassword(typed);
      if k.None? {
        return false;
      }
      var stored := CredentialCodec.CaesarEncrypt(typed[k.value]);
      var i := found.value;
      members := members[i := members[i].(password := stored, firstLogin := 1)];
      return true;
    }

    // --- member operations ---------------------------------------------------

    /** borrow_book. */
    method Borrow(memberId: int, bookId: int, now: int) returns (outcome: Lending.BorrowOutcome)
      modifies this
      ensures (St(), outcome) == Lending.Borrow(old(St()), memberId, bookId, now)
      ensures lastActivity == old(lastActivity)
    {
      var found := FindBookIndex(bookId);
      if found.None? {
        return Lending.BookNotFound;
      }
      var i := found.value;
      if books[i].available <= 0 {
        return Lending.Unavailable;
      }
      var due := now + LoanSeconds;
      transactions := transactions + [Transaction(nextTransactionId, bookId, memberId, now, due, 0, 0)];
      nextTransactionId := nextTransactionId + 1;
      books := books[i := books[i].(available := books[i].available - 1)];
      return Lending.Borrowed(due);
    }

    /** return_book: count the listed loans, pick the member's outstanding one, stamp it, charge any fine, restock. */
    method Return(memberId: int, transId: int, now: int) returns (outcome: Lending.ReturnOutcome)
      modifies this
      ensures (St(), outcome) == Lending.Return(old(St()), memberId, transId, now)
      ensures lastActivity == old(lastActivity)
    {
      var active := CountReturnable(memberId);
      if active == 0 {
        return Lending.NothingToReturn;
      }
      var k := FindOpenLoanIndex(transId, memberId);
      if k.None? {
        return Lending.InvalidTransaction;
      }
      var t := transactions[k.value];
      var fine := t.fineCents;
      if now > t.dueDate {
        var daysLate := (now - t.dueDate) / SecondsPerDay + 1;
        fine := daysLate * FinePerDayCents;
      }
      transactions := transactions[k.value := t.(returnDate := now, fineCents := fine)];
      var b := FindBookIndex(t.bookId);
      if b.Some? {
        books := books[b.value := books[b.value].(available := books[b.value].available + 1)];
      }
      return Lending.Returned(fine);
    }

    /** The listing loop of return_book: the member's outstanding loans whose book still exists. */
    method CountReturnable(memberId: int) returns (active: nat)
      ensures active == |Lending.ReturnableLoans(St(), memberId)|
    {
      active := 0;
      var i := 0;
      while i < |transactions|
        invariant 0 <= i <= |transactions|
        invariant active == |Lending.Listed(books, transactions[..i], memberId)|
      {
        assert transactions[..i + 1][..i] == transactions[..i];
        if transactions[i].memberId == memberId && transactions[i].returnDate == 0 {
          var b := FindBookIndex(transactions[i].bookId);
          if b.Some? {
            active := active + 1;
          }
        }
        i := i + 1;
      }
      assert transactions[..|transactions|] == transactions;
    }

    /** The search loop of return_book for the chosen transaction. */
    method FindOpenLoanIndex(transId: int, memberId: int) returns (r: Option<nat>)
      ensures r == Lending.FindOpenLoan(transactions, transId, memberId)
    {
      var i := 0;
      while i < |transactions|
        invariant 0 <= i <= |transactions|
        invariant forall j :: 0 <= j < i ==> !(transactions[j].id == transId && transactions[j].memberId == memberId
                                                && IsOutstanding(transactions[j]))
      {
        if transactions[i].id == transId && transactions[i].memberId == memberId && transactions[i].returnDate == 0 {
          FindOpenLoanAt(transactions, transId, memberId, i);
          return Some(i);
        }
        i := i + 1;
      }
      return None;
    }

    // --- session -------------------------------------------------------------

    /** check_session_timeout: report a timeout without touching the clock, or record the activity. */
    method CheckSessionTimeout(now: int) returns (timedOut: bool)
      modifies this
      ensures timedOut == Auth.TimedOut(old(lastActivity), now)
      ensures lastActivity == if timedOut then old(lastActivity) else now
      ensures St() == old(St())
    {
      if now - lastActivity > SessionTimeoutSeconds {
        return true;
      }
      lastActivity := now;
      return false;
    }

    /** login's attempt loop: the stored password is decrypted and compared for each typed one, at most three times. */
    method CheckCredentials(choice: int, username: string, typed: seq<string>) returns (outcome: Auth.LoginOutcome)
      ensures outcome == Auth.Authenticate(members, choice, username, typed)
    {
      var attempts: nat := 0;
      while attempts < MaxLoginAttempts && attempts < |typed|
        invariant attempts <= MaxLoginAttempts && attempts <= |typed|
        invariant forall j :: 0 <= j < attempts ==> Auth.Attempt(members, choice, username, typed[j]).None?
        invariant Auth.AuthenticateFrom(members, choice, username, typed, attempts) == Auth.Authenticate(members, choice, username, typed)
      {
        var hit := TryPassword(choice, username, typed[attempts]);
        Auth.AuthenticateFromStep(members, choice, username, typed, attempts);
        if hit.Some? {
          return Auth.Authenticated(hit.value, attempts + 1);
        }
        attempts := attempts + 1;
      }
      Auth.AuthenticateFromEnd(members, choice, username, typed, attempts);
      return Auth.Rejected(attempts);
    }

    /** One pass of the attempt loop: look the account up and compare its decrypted password with the typed one. */
    method TryPassword(choice: int, username: string, password: string) returns (r: Option<nat>)
      ensures r == Auth.Attempt(members, choice, username, password)
    {
      var found: Option<nat> := None;
      if choice == Auth.LibrarianChoice {
        if username == Auth.AdminName {
          found := FindMemberNamed(Auth.AdminName);
        }
      } else {
        found := FindMemberNamed(username);
      }
      if found.Some? {
        var plain := CredentialCodec.CaesarDecrypt(members[found.value].password);
        if plain == password {
          return found;
        }
      }
      return None;
    }

    /** login: the attempt loop, and the activity time recorded on success. */
    method Login(choice: int, username: string, typed: seq<string>, now: int) returns (outcome: Auth.LoginOutcome)
      modifies this
      ensures outcome == Auth.Authenticate(members, choice, username, typed)
      ensures lastActivity == if outcome.Authenticated? then now else old(lastActivity)
      ensures St() == old(St())
    {
      outcome := CheckCredentials(choice, username, typed);
      if outcome.Authenticated? {
        lastActivity := now;
      }
    }

    /** change_password for the account at `k`: prompt until a confirmed password passes the role's rule. */
    method ChangePassword(k: nat, isAdmin: bool, typed: seq<string>) returns (changed: bool)
      requires k < |members|
      modifies this
      ensures match Auth.CommittedPassword(typed, isAdmin)
        case None => St() == old(St()) && !changed
        case Some(p) => St() == Auth.ApplyPasswordChange(old(St()), k, p) && changed
      ensures lastActivity == old(lastActivity)
    {
      var rest := typed;
      while rest != []
        invariant Auth.CommittedPassword(rest, isAdmin) == Auth.CommittedPassword(typed, isAdmin)
        invariant St() == old(St()) && lastActivity == old(lastActivity)
        decreases |rest|
      {
        var ok;
        if isAdmin {
          ok := PasswordPolicy.IsStrongAdminPassword(rest[0]);
        } else {
          ok := PasswordPolicy.IsValidMemberPassword(rest[0]);
        }
        if !ok {
          rest := rest[1..];
        } else if |rest| < 2 {
          return false;
        } else if rest[0] == rest[1] {
          var stored := CredentialCodec.CaesarEncrypt(rest[0]);
          members := members[k := members[k].(password := stored, firstLogin := 0)];
          return true;
        } else {
          rest := rest[2..];
        }
      }
      return false;
    }

    /**
     * login as a whole, up to the menu: the attempt loop, then the mandatory
     * password change when the account's first-login flag is set. The menu
     * opens only after a successful login whose flag is clear or whose
     * change commits.
     */
    method SignIn(choice: int, username: string, typed: seq<string>, newPasswords: seq<string>, now: int)
      returns (outcome: Auth.LoginOutcome, menuOpens: bool)
      modifies this
      ensures outcome == Auth.Authenticate(old(members), choice, username, typed)
      ensures outcome.Rejected? ==> !menuOpens && St() == old(St()) && lastActivity == old(lastActivity)
      ensures outcome.Authenticated? ==> lastActivity == now
      ensures outcome.Authenticated? && old(members)[outcome.member].firstLogin == 0 ==> menuOpens && St() == old(St())
      ensures outcome.Authenticated? && old(members)[outcome.member].firstLogin != 0 ==>
        match Auth.CommittedPassword(newPasswords, choice == Auth.LibrarianChoice)
        case None => !menuOpens && St() == old(St())
        case Some(p) => menuOpens && St() == Auth.ApplyPasswordChange(old(St()), outcome.member, p)
    {
      outcome := Login(choice, username, typed, now);
      if outcome.Rejected? {
        return outcome, false;
      }
      Auth.AuthenticateSound(old(members), choice, username, typed);
      if members[outcome.member].firstLogin == 0 {
        return outcome, true;
      }
      menuOpens := ChangePassword(outcome.member, choice == Auth.LibrarianChoice, newPasswords);
    }
  }

  // --- helpers for the loops -------------------------------------------------

/**
   * The read loop shared by the three loads: match records with `parse`
   * until a line fails, raising the counter past each record's id.
   */
  method ReadRows<R>(text: string, parse: string -> Option<(R, string)>, key: R -> int, start: int)
    returns (rows: seq<R>, next: int)
    requires RecordFormat.Consumes(parse)
    ensures rows == RecordFormat.ParseAll(parse, text)
    ensures next == RecordFormat.SeedNextId(start, RecordFormat.Keys(key, rows))
  {
    var rest := text;
    rows := [];
    next := start;
    while true
      invariant rows + RecordFormat.ParseAll(parse, rest) == RecordFormat.ParseAll(parse, text)
      invariant next == RecordFormat.SeedNextId(start, RecordFormat.Keys(key, rows))
      decreases |rest|
    {
      var r := parse(rest);
      if r.None? {
        return;
      }
      var row := r.value.0;
      var after := r.value.1;
      AppendAssoc(rows, row, RecordFormat.ParseAll(parse, rest), RecordFormat.ParseAll(parse, after),
                  RecordFormat.ParseAll(parse, text));
      RecordFormat.KeysAppend(key, rows, row);
      RecordFormat.SeedNextIdAppend(start, RecordFormat.Keys(key, rows), key(row));
      rows := rows + [row];
      if key(row) >= next {
        next := key(row) + 1;
      }
      rest := after;
    }
  }

  lemma AppendAssoc<X>(a: seq<X>, b: X, c: seq<X>, d: seq<X>, e: seq<X>)
    requires c == [b] + d
    requires a + c == e
    ensures (a + [b]) + d == e
  {
  }

  /** The shift-down of delete_book and delete_member: each later element moves one slot down, then the last slot is dropped. */
  method ShiftDown<T>(s: seq<T>, i: nat) returns (r: seq<T>)
    requires i < |s|
    ensures r == RemoveAt(s, i)
  {
    r := s;
    var j := i;
    while j < |s| - 1
      invariant i <= j <= |s| - 1
      invariant |r| == |s|
      invariant forall m :: 0 <= m < i ==> r[m] == s[m]
      invariant forall m :: i <= m < j ==> r[m] == s[m + 1]
      invariant forall m :: j <= m < |s| ==> r[m] == s[m]
    {
      r := r[j := r[j + 1]];
      j := j + 1;
    }
    r := r[..|s| - 1];
  }

  /** The prompt loop of add_member and reset_member_password: the first typed password the member rule accepts. */
  method FirstValidMemberPassword(typed: seq<string>) returns (k: Option<nat>)
    ensures k == Auth.FirstValidMemberPassword(typed)
  {
    var i := 0;
    while i < |typed|
      invariant 0 <= i <= |typed|
      invariant forall j :: 0 <= j < i ==> !PasswordPolicy.ValidMember(typed[j])
    {
      var ok := PasswordPolicy.IsValidMemberPassword(typed[i]);
      if ok {
        FirstValidAt(typed, i);
        return Some(i);
      }
      i := i + 1;
    }
    return None;
  }

  lemma FirstValidAt(typed: seq<string>, i: nat)
    requires i < |typed| && PasswordPolicy.ValidMember(typed[i])
    requires forall j :: 0 <= j < i ==> !PasswordPolicy.ValidMember(typed[j])
    ensures Auth.FirstValidMemberPassword(typed) == Some(i)
  {
  }

  lemma FindOpenLoanAt(ts: seq<Transaction>, transId: int, memberId: int, i: nat)
    requires i < |ts| && ts[i].id == transId && ts[i].memberId == memberId && IsOutstanding(ts[i])
    requires forall j :: 0 <= j < i ==> !(ts[j].id == transId && ts[j].memberId == memberId && IsOutstanding(ts[j]))
    ensures Lending.FindOpenLoan(ts, transId, memberId) == Some(i)
  {
  }
}
