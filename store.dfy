/**
 * The record store: the three in-memory tables and their id counters, with
 * the linear-scan finds and the add and delete operations of the librarian
 * menu, as functions of the store's value. The `Library` class performs the
 * same operations in place and is proved to agree with these functions.
 */
module Store {
  import opened Options
  import opened Records
  import CredentialCodec

  datatype Tables = Tables(
    books: seq<Book>,
    members: seq<Member>,
    transactions: seq<Transaction>,
    nextBookId: int,
    nextMemberId: int,
    nextTransactionId: int)

  /** The globals before anything is loaded: empty tables, every counter at 1. */
  const Empty: Tables := Tables([], [], [], 1, 1, 1)

  // --- finds ----------------------------------------------------------------

  /** find_book_by_id: the position of the first book with this id, if any. */
  function FindBook(books: seq<Book>, id: int): (r: Option<nat>)
    ensures r.Some? ==> r.value < |books| && books[r.value].id == id
    ensures r.Some? ==> forall j :: 0 <= j < r.value ==> books[j].id != id
    ensures r.None? ==> forall j :: 0 <= j < |books| ==> books[j].id != id
  {
    if books == [] then None
    else if books[0].id == id then Some(0)
    else match FindBook(books[1..], id)
      case None => None
      case Some(k) => Some(k + 1)
  }

  /** find_member_by_id: the position of the first member with this id, if any. */
  function FindMemberById(members: seq<Member>, id: int): (r: Option<nat>)
    ensures r.Some? ==> r.value < |members| && members[r.value].id == id
    ensures r.Some? ==> forall j :: 0 <= j < r.value ==> members[j].id != id
    ensures r.None? ==> forall j :: 0 <= j < |members| ==> members[j].id != id
  {
    if members == [] then None
    else if members[0].id == id then Some(0)
    else match FindMemberById(members[1..], id)
      case None => None
      case Some(k) => Some(k + 1)
  }

  /** find_member_by_name: the position of the first member whose name equals the query, if any. */
  function FindMemberByName(members: seq<Member>, name: string): (r: Option<nat>)
    ensures r.Some? ==> r.value < |members| && members[r.value].name == name
    ensures r.Some? ==> forall j :: 0 <= j < r.value ==> members[j].name != name
    ensures r.None? ==> forall j :: 0 <= j < |members| ==> members[j].name != name
  {
    if members == [] then None
    else if members[0].name == name then Some(0)
    else match FindMemberByName(members[1..], name)
      case None => None
      case Some(k) => Some(k + 1)
  }

  /** A position holding the key, with no earlier position holding it, is what the finds return. */
  lemma FindBookAt(books: seq<Book>, id: int, i: nat)
    requires i < |books| && books[i].id == id
    requires forall j :: 0 <= j < i ==> books[j].id != id
    ensures FindBook(books, id) == Some(i)
  {
  }

  lemma FindMemberByIdAt(members: seq<Member>, id: int, i: nat)
    requires i < |members| && members[i].id == id
    requires forall j :: 0 <= j < i ==> members[j].id != id
    ensures FindMemberById(members, id) == Some(i)
  {
  }

  lemma FindMemberByNameAt(members: seq<Member>, name: string, i: nat)
    requires i < |members| && members[i].name == name
    requires forall j :: 0 <= j < i ==> members[j].name != name
    ensures FindMemberByName(members, name) == Some(i)
  {
  }

  // --- removal with the order of the others kept ----------------------------

  /** What the shift-down loop of delete_book and delete_member leaves: `s` without its element at `i`. */
  function RemoveAt<T>(s: seq<T>, i: nat): (r: seq<T>)
    requires i < |s|
    ensures |r| == |s| - 1
    ensures forall j :: 0 <= j < i ==> r[j] == s[j]
    ensures forall j :: i <= j < |r| ==> r[j] == s[j + 1]
  {
    s[..i] + s[i + 1..]
  }

  lemma RemoveAtMultiset<T>(s: seq<T>, i: nat)
    requires i < |s|
    ensures multiset(RemoveAt(s, i)) + multiset{s[i]} == multiset(s)
  {
    assert s == s[..i] + [s[i]] + s[i + 1..];
  }

  // --- librarian operations -------------------------------------------------

  /** add_book: a new record at the end with the next id and every copy available; the counter moves on. */
  function AddBook(st: Tables, title: string, author: string, category: string, quantity: int): Tables {
    st.(books := st.books + [Book(st.nextBookId, title, author, category, quantity, quantity)],
        nextBookId := st.nextBookId + 1)
  }

  /** delete_book: drop the first book with this id, or change nothing when there is none. */
  function DeleteBook(st: Tables, id: int): (r: (Tables, bool))
  {
    match FindBook(st.books, id)
    case None => (st, false)
    case Some(i) => (st.(books := RemoveAt(st.books, i)), true)
  }

  /** add_member: a new record with the next id, the accepted password stored encrypted and the first-login flag set. */
  function AddMember(st: Tables, name: string, email: string, password: string): Tables {
    st.(members := st.members + [Member(st.nextMemberId, name, email, CredentialCodec.Encrypt(password), 1)],
        nextMemberId := st.nextMemberId + 1)
  }

  /** delete_member: drop the first member with this id, or change nothing when there is none. */
  function DeleteMember(st: Tables, id: int): (r: (Tables, bool))
  {
    match FindMemberById(st.members, id)
    case None => (st, false)
    case Some(i) => (st.(members := RemoveAt(st.members, i)), true)
  }

  /** reset_member_password: store the new password encrypted and re-arm the first-login flag. */
  function ResetMemberPassword(st: Tables, memberId: int, password: string): (r: (Tables, bool))
  {
    match FindMemberById(st.members, memberId)
    case None => (st, false)
    case Some(i) =>
      var m := st.members[i].(password := CredentialCodec.Encrypt(password), firstLogin := 1);
      (st.(members := st.members[i := m]), true)
  }

  // --- ids ------------------------------------------------------------------

  /** Every id in a table is below that table's counter: the fact that keeps new ids fresh. */
  predicate IdsBelowCounters(st: Tables) {
    (forall i :: 0 <= i < |st.books| ==> st.books[i].id < st.nextBookId) &&
    (forall i :: 0 <= i < |st.members| ==> st.members[i].id < st.nextMemberId) &&
    (forall i :: 0 <= i < |st.transactions| ==> st.transactions[i].id < st.nextTransactionId)
  }

  /** The counters of `after` are at least those of `before`. */
  predicate CountersNotLowered(before: Tables, after: Tables) {
    before.nextBookId <= after.nextBookId &&
    before.nextMemberId <= after.nextMemberId &&
    before.nextTransactionId <= after.nextTransactionId
  }

  /**
   * add_book appends exactly one record, with a fresh id larger than every id
   * in the table, leaves the existing records untouched, and the new record
   * is the one find_book_by_id returns for that id.
   */
  lemma AddBookIssuesFreshId(st: Tables, title: string, author: string, category: string, quantity: int)
    requires IdsBelowCounters(st)
    ensures var r := AddBook(st, title, author, category, quantity);
      |r.books| == |st.books| + 1 && r.books[..|st.books|] == st.books
      && r.books[|st.books|] == Book(st.nextBookId, title, author, category, quantity, quantity)
      && (forall i :: 0 <= i < |st.books| ==> st.books[i].id < r.books[|st.books|].id)
      && FindBook(r.books, st.nextBookId) == Some(|st.books|)
      && IdsBelowCounters(r) && CountersNotLowered(st, r)
      && r.members == st.members && r.transactions == st.transactions
  {
    var r := AddBook(st, title, author, category, quantity);
    assert r.books[..|st.books|] == st.books;
  }

  /** add_member appends one member with a fresh id, the password stored encrypted and the first-login flag set. */
  lemma AddMemberIssuesFreshId(st: Tables, name: string, email: string, password: string)
    requires IdsBelowCounters(st)
    ensures var r := AddMember(st, name, email, password);
      |r.members| == |st.members| + 1 && r.members[..|st.members|] == st.members
      && r.members[|st.members|] == Member(st.nextMemberId, name, email, CredentialCodec.Encrypt(password), 1)
      && (forall i :: 0 <= i < |st.members| ==> st.members[i].id < r.members[|st.members|].id)
      && FindMemberById(r.members, st.nextMemberId) == Some(|st.members|)
      && r.members[|st.members|].firstLogin == 1
      && IdsBelowCounters(r) && CountersNotLowered(st, r)
      && r.books == st.books && r.transactions == st.transactions
  {
    var r := AddMember(st, name, email, password);
    assert r.members[..|st.members|] == st.members;
  }

  /**
   * delete_book with a known id removes the first book with that id, keeps
   * the others in their order and lowers the count by one; with an unknown id
   * the store is unchanged. No counter moves either way.
   */
  lemma DeleteBookRemovesFirstMatch(st: Tables, id: int)
    ensures var r := DeleteBook(st, id);
      (r.1 <==> exists i :: 0 <= i < |st.books| && st.books[i].id == id)
      && (!r.1 ==> r.0 == st)
      && (r.1 ==> exists i :: 0 <= i < |st.books| && st.books[i].id == id
                    && (forall j :: 0 <= j < i ==> st.books[j].id != id)
                    && r.0.books == st.books[..i] + st.books[i + 1..])
      && |r.0.books| == |st.books| - (if r.1 then 1 else 0)
      && r.0.nextBookId == st.nextBookId
      && r.0.members == st.members && r.0.transactions == st.transactions
  {
    var r := DeleteBook(st, id);
    match FindBook(st.books, id)
    case None =>
    case Some(i) =>
      assert st.books[i].id == id;
  }

  /** When book ids are unique, a deleted id is no longer found, and every other id is found exactly when it was before. */
  lemma DeleteBookForgetsOnlyThatId(st: Tables, id: int, other: int)
    requires forall i, j :: 0 <= i < j < |st.books| ==> st.books[i].id != st.books[j].id
    ensures FindBook(DeleteBook(st, id).0.books, id).None?
    ensures other != id ==> (FindBook(DeleteBook(st, id).0.books, other).Some? <==> FindBook(st.books, other).Some?)
  {
    match FindBook(st.books, id)
    case None =>
    case Some(i) =>
      var bs := DeleteBook(st, id).0.books;
      assert bs == RemoveAt(st.books, i);
      if other != id {
        match FindBook(st.books, other)
        case None =>
        case Some(k) =>
          assert k != i;
          var k' := if k < i then k else k - 1;
          assert bs[k'].id == other;
      }
  }

  /** delete_member with a known id removes the first member with that id and keeps the others in order. */
  lemma DeleteMemberRemovesFirstMatch(st: Tables, id: int)
    ensures var r := DeleteMember(st, id);
      (r.1 <==> exists i :: 0 <= i < |st.members| && st.members[i].id == id)
      && (!r.1 ==> r.0 == st)
      && (r.1 ==> exists i :: 0 <= i < |st.members| && st.members[i].id == id
                    && (forall j :: 0 <= j < i ==> st.members[j].id != id)
                    && r.0.members == st.members[..i] + st.members[i + 1..])
      && r.0.nextMemberId == st.nextMemberId
      && r.0.books == st.books && r.0.transactions == st.transactions
  {
    match FindMemberById(st.members, id)
    case None =>
    case Some(i) =>
      assert st.members[i].id == id;
  }

  /**
   * reset_member_password changes nothing for an unknown id; otherwise it
   * rewrites only the first member with that id: its stored password becomes
   * the encrypted new one and its first-login flag is set.
   */
  lemma ResetRearmsFirstLogin(st: Tables, memberId: int, password: string)
    ensures var r := ResetMemberPassword(st, memberId, password);
      (r.1 <==> exists i :: 0 <= i < |st.members| && st.members[i].id == memberId)
      && (!r.1 ==> r.0 == st)
      && (r.1 ==> exists i :: 0 <= i < |st.members| && st.members[i].id == memberId
                    && |r.0.members| == |st.members|
                    && r.0.members[i].password == CredentialCodec.Encrypt(password)
                    && r.0.members[i].firstLogin == 1
                    && r.0.members[i].(password := st.members[i].password, firstLogin := st.members[i].firstLogin) == st.members[i]
                    && forall j :: 0 <= j < |st.members| && j != i ==> r.0.members[j] == st.members[j])
      && r.0.books == st.books && r.0.transactions == st.transactions
      && r.0.nextMemberId == st.nextMemberId
  {
    match FindMemberById(st.members, memberId)
    case None =>
    case Some(i) =>
      assert st.members[i].id == memberId;
  }

  /**
   * Ids are never reused: after deleting any book and then adding one, the
   * new id is above every id the table held before the delete.
   */
  lemma DeleteThenAddNeverReusesId(st: Tables, id: int, title: string, author: string, category: string, quantity: int)
    requires IdsBelowCounters(st)
    ensures var r := AddBook(DeleteBook(st, id).0, title, author, category, quantity);
      forall i :: 0 <= i < |st.books| ==> st.books[i].id < r.books[|r.books| - 1].id
  {
    var d := DeleteBook(st, id).0;
    assert d.nextBookId == st.nextBookId;
    match FindBook(st.books, id)
    case None =>
    case Some(k) =>
      forall i | 0 <= i < |d.books| ensures d.books[i].id < d.nextBookId {
        assert d.books[i] == if i < k then st.books[i] else st.books[i + 1];
      }
  }
}
