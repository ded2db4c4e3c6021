# Library lending tracker — a verified model

The library lending tracker is a console program for a small library. Librarians
add and delete books and members and reset member passwords. Members borrow and
return books. A returned book that is late is fined 10.00 per started day. Everything
lives in three in-memory tables: books, members and transactions. Each table has a
monotonic id counter. Each table is saved to a comma-separated text file after every
change and loaded again at start-up. Passwords are stored under a Caesar shift of 3.
Login allows three password attempts. The librarian role may only sign in as "admin".
A member flagged for first login must choose a new password before reaching the
menu. Ten minutes without activity end the session.

The two source files, `code.c` and its later paginated version `code1.1.c`, share
this logic. The model follows `code.c`. "## Findings" states the one place where
`code1.1.c` differs, and one restart defect that both versions share.

The model has nine modules:

* `Records`: the three record kinds and the program's constants.
* `CredentialCodec`: the caesar shift.
* `PasswordPolicy`: the two password rules.
* `RecordFormat`: the save line format and the load parser.
  * The parser follows the `fscanf` directives: `%d`, `%W[^,]`, `%f` in plain decimal notation, and the white space that `\n` skips.
  * A load keeps every record up to the first line that does not match.
  * During a load, the id counters are raised past every id seen.
* `Store`: the tables as a value, with the finds and the librarian operations as functions.
* `Lending`: borrow, return and the fine.
  * It also holds the accounting invariant `Consistent`: for each book, available copies plus outstanding loans equal the quantity.
* `Auth`: login lookup, the attempt loop, the mandatory password change, the timeout test and the default librarian account.
* `Library`: a `Library` class whose fields are the program's globals.
  * Every step-by-step routine of the source is a method here: loads, finds, shift-down deletes, borrow, return, the attempt loop, the prompt loops and the timeout check.
  * Each method is proved to leave exactly the state that the matching function of `Store`, `Lending` or `Auth` describes. The lemmas proved about those functions therefore hold of the running object.

Modelling choices:

* Time is an integer parameter `now`, in seconds.
* Typed input is a finite sequence of lines. The source's prompt loops repeat forever until the input is acceptable. In the model, a loop that runs out of lines commits nothing.
* The contents of a data file are an `Option<string>`. `None` stands for a file that cannot be opened.
* Fines are integers in cents. Every fine the program computes is a whole number of days times 10.00, and a `%.2f` text of a whole number of cents reads back exactly.
* The caesar shift adds 3 to a `char` and stores the result in a `char`. On bytes this wraps modulo 256, and the model writes the wrap out. The round trip holds for every text of single bytes.

Behaviour of the source that the model makes explicit:

* Fine days are `(seconds late) / 86400 + 1`, as the code computes them.
  * This is one day more than a ceiling exactly at whole days. `Lending.DaysLateVersusCeiling` states the difference.
  * The code is followed here, not a "started days" reading.
* The caesar shift maps `)` to `,`.
  * A stored password containing `,` does not survive save and load (`RecordFormat.CommaInStoredPasswordIsNotReloaded`).
  * What the load then does depends on the character after the first comma of the stored password.
  * When that character cannot open a `%d` number (it is not a sign, a digit or white space), or the comma ends the password, the member's line does not match. The load keeps only the members before it and drops that member and every later one (`RecordFormat.LoadStopsAtBrokenMember`).
  * Otherwise `fscanf` may still match the line and keep a garbled record, with the password cut at the comma and the rest read as numbers. Which members follow it then depends on the text, and the model states nothing more about that case.
* `add_book` accepts any quantity. Every negative one breaks the stock invariant (`Lending.NegativeQuantityBreaksStock`). The preservation lemma therefore requires a non-negative quantity.
* The id counters are not saved; load seeds them from the largest surviving id. When the newest book is deleted and the program restarts, the next book gets the deleted book's id again (`Library.RestartReusesDeletedId`). Within one run, ids are never reused (`Store.DeleteThenAddNeverReusesId`).
  * Loans are saved, and `delete_book` does not check for them. A book deleted while lent out therefore leaves an orphan loan behind. After a restart, a new book that is issued the same id inherits that loan.
  * So the stock invariant holds within one run but is not kept across a restart. Returning the orphan loan gives the new book a copy it never lent: quantity 1, available 2 (`Library.RestartBreaksStock`, listed under "## Findings").
* A return stamps `return_date = now`. If `now` were 0, the loan would still look outstanding while its copy had been given back. `Lending.ReturnPreservesConsistent` therefore requires `now != 0`.
* The first-login flag is the C `int`. Any non-zero value counts as set.

## Model

| member | source | states |
|---|---|---|
| CredentialCodec.Encrypt | code1.1.c:68-74 | The stored form has the password's length and each byte is the typed byte plus 3, modulo 256 |
| CredentialCodec.CaesarEncrypt | code.c:60-66 | The encryption loop's output buffer equals `Encrypt(input)` |
| CredentialCodec.CaesarDecrypt | code.c:68-74 | The decryption loop's output equals `Decrypt(input)`: each byte minus 3, modulo 256, length kept |
| CredentialCodec.DecryptEncrypt | code1.1.c:68-82 | Decrypting the encryption of any byte text gives the text back |
| CredentialCodec.EncryptDecrypt | code.c:60-74 | Encrypting the decryption of any byte text gives the text back |
| CredentialCodec.EncryptInjective | code.c:60-66 | Two byte passwords with the same stored form are equal |
| PasswordPolicy.IsStrongAdminPassword | code.c:207-218 | Accepts exactly when the length is at least 12 and there is an upper-case letter, a lower-case letter, a digit and a punctuation character (both directions) |
| PasswordPolicy.IsValidMemberPassword | code.c:220-228 | Accepts exactly when the length is at least 8 and there is a digit (both directions) |
| PasswordPolicy.DefaultAdminPasswordIsStrong | code.c:883 | The bootstrap password "AdminPassword123!" meets the librarian rule |
| RecordFormat.SeedNextId | code.c:247-250 | The counter after a load is at least its start, above every loaded id, and equals the start or one more than some loaded id |
| RecordFormat.ParseBook | code.c:238 | A matched book line yields text fields of 1 to 99/49/29 comma-free characters and consumes input |
| RecordFormat.ParseMember | code.c:274 | A matched member line yields text fields of 1 to 49/99/255 comma-free characters |
| RecordFormat.ParseIntRoundTrip | code.c:263 | Every number `%d` writes is read back by `%d` to the same value, with the text after it left alone |
| RecordFormat.FieldRoundTrip | code.c:238 | A non-empty, comma-free field within its width is read back whole by `%W[^,]` and the following comma |
| RecordFormat.CentsRoundTrip | code.c:310-337 | The `%.2f` text of any amount in cents, negative ones included, is read back by `%f` as the same amount |
| RecordFormat.BookLineRoundTrip | code.c:233-266 | A book line written by save re-parses to the same six fields when title, author and category fit their patterns |
| RecordFormat.MemberLineRoundTrip | code.c:269-302 | A member line re-parses to the same five fields when name, email and stored password fit their patterns |
| RecordFormat.TransactionLineRoundTrip | code.c:305-344 | Every transaction line re-parses to the same seven fields |
| RecordFormat.BooksRoundTrip | code.c:233-266 | Loading a saved book file gives back the same table, in order |
| RecordFormat.MembersRoundTrip | code.c:269-302 | Loading a saved member file gives back the same table, in order |
| RecordFormat.TransactionsRoundTrip | code.c:305-344 | Loading a saved transaction file gives back the same table, in order |
| RecordFormat.ParsedBooksStorable | code.c:238 | Every book a load keeps has text fields the line format can carry |
| RecordFormat.ParsedMembersStorable | code.c:274 | Every member a load keeps has text fields the line format can carry |
| RecordFormat.BooksReloadStable | code.c:233-266 | Saving what a load kept and loading again keeps the same books |
| RecordFormat.MembersReloadStable | code.c:269-302 | Saving what a load kept and loading again keeps the same members |
| RecordFormat.CommaInStoredPasswordIsNotReloaded | code.c:269-302 | A member whose stored password contains a comma is not read back as itself |
| RecordFormat.BrokenMemberLineIsRefused | code.c:274 | A member line whose stored password has a comma followed by a character that cannot open a number, or by nothing, does not match the member pattern |
| RecordFormat.LoadStopsAtBrokenMember | code.c:269-302 | Loading a saved member table whose member k has such a password keeps exactly the members before k |
| RecordFormat.ParseAllLines | code.c:237-252 | For any record pattern that reads back what its save line writes, the load loop over a saved file keeps every row, in order |
| RecordFormat.ParseAllLinesStop | code.c:237-252 | The load loop over a saved file whose row k's text does not match keeps exactly the rows before k |
| RecordFormat.ParseAllBooks | code.c:237-252 | The generic read loop with the book pattern keeps exactly the rows of `ParseBooks` |
| Store.FindBook | code.c:348-355 | Returns the first position holding the id, or none when no book has it |
| Store.FindMemberById | code.c:357-364 | Returns the first position holding the id, or none when no member has it |
| Store.FindMemberByName | code.c:366-373 | Returns the first position whose name equals the query, or none when no member matches |
| Store.RemoveAt | code.c:420-424 | The table after the shift-down: one shorter, entries before the slot unchanged, entries after it moved down by one |
| Store.RemoveAtMultiset | code.c:420-424 | The shift-down loses exactly the deleted record and keeps every other one |
| Store.AddBookIssuesFreshId | code.c:378-401 | Appends one record at the end with the counter's id, every copy available and an id above every existing one; existing records, members and transactions unchanged; the new record is what find returns |
| Store.AddMemberIssuesFreshId | code.c:437-469 | Appends exactly one member: the counter's id (above every existing one), the name, the email, the encrypted password and the first-login flag 1; existing members unchanged; counters keep above every id |
| Store.DeleteBookRemovesFirstMatch | code.c:403-426 | Deletes exactly when some book has the id: removes the first such book, keeps the others in order and lowers the count by one; an unknown id changes nothing; no counter moves |
| Store.DeleteBookForgetsOnlyThatId | code.c:403-426 | With unique ids, the deleted id is no longer found and every other id is found exactly when it was before |
| Store.DeleteMemberRemovesFirstMatch | code.c:471-494 | Deletes exactly when some member has the id: removes the first one and keeps the others in order; otherwise nothing changes |
| Store.ResetRearmsFirstLogin | code.c:513-535 | Unknown id: nothing changes. Known id: only the first member with it changes, getting the encrypted new password and the first-login flag |
| Store.DeleteThenAddNeverReusesId | code.c:388-426 | After any delete, the next added book's id is above every id the table held before |
| Lending.EmptyIsConsistent | code.c:78-93 | The empty store satisfies the stock and id invariant |
| Lending.StockInRange | code.c:591-616 | In a consistent store every book has 0 <= available <= quantity |
| Lending.BorrowRefusalChangesNothing | code.c:586-594 | The outcome is "not found" exactly when no book has the id, and "unavailable" exactly when the first book with it has no copy; either refusal changes nothing |
| Lending.BorrowEffect | code.c:605-616 | A borrow appends one loan with the counter's id, a due date 7 days later, return 0 and fine 0; it moves the counter by one, takes one copy from the first book with the id, and changes nothing else |
| Lending.BorrowPreservesConsistent | code.c:582-623 | Borrow keeps available plus outstanding loans equal to the quantity for every book |
| Lending.ReturnableLoans | code.c:633-647 | The listed loans are exactly the member's outstanding ones whose book still exists |
| Lending.FindOpenLoan | code.c:651-657 | Returns the first transaction with that id, that member and return date 0, or none |
| Lending.DaysLate | code.c:667-669 | The days charged, d, satisfy (d-1)*86400 <= seconds late < d*86400 |
| Lending.ReturnWithoutOpenLoanChangesNothing | code.c:651-662 | Without a matching outstanding loan of the member, return changes nothing and returns nothing |
| Lending.ReturnEffect | code.c:664-672 | A return rewrites only the first matching outstanding loan, with the return time and the fine; members and counters are untouched |
| Lending.ReturnRestock | code.c:676-679 | The first book with the loan's id gets one copy back if it still exists, and no other book changes |
| Lending.FineExamples | code.c:666-673 | 1 s late costs 10.00, exactly 86400 s late costs 20.00, and on time keeps the recorded fine |
| Lending.DaysLateVersusCeiling | code.c:668-669 | The days charged equal the ceiling of the days late, plus one at exact whole days |
| Lending.ReturnPreservesConsistent | code.c:625-682 | Return keeps the stock invariant (for a non-zero return time) |
| Lending.AddBookPreservesConsistent | code.c:388-398 | Adding a book with a non-negative quantity keeps the invariant |
| Lending.NegativeQuantityBreaksStock | code.c:396-397 | Adding a book with a negative quantity breaks the invariant |
| Lending.DeleteBookPreservesConsistent | code.c:403-426 | Deleting a book keeps the invariant |
| Lending.MemberOperationsPreserveConsistent | code.c:437-535 | Adding, deleting and resetting members keep the invariant |
| Lending.BorrowThenReturn | code.c:582-682 | A borrow then the same member's return gives the copy back, with fine 0 up to the due date and 10.00 per day charged after it |
| Auth.LoginLookupRespectsRole | code.c:777-784 | The librarian role finds only an account named "admin" and nothing for any other name; the member role finds the first account with the typed name |
| Auth.AsWrittenLetsMemberInAsLibrarian | code1.1.c:607 | In the later version, the librarian role with a member's name finds that member, where the corrected lookup finds nothing |
| Auth.AsWrittenAgreesElsewhere | code1.1.c:607 | Outside that case the two lookups agree |
| Auth.AuthenticateFrom | code.c:775-809 | A success is at an attempt within the three allowed and the typed passwords available, and every earlier attempt failed; a rejection has used every attempt available |
| Auth.AuthenticateSound | code.c:775-809 | At most 3 comparisons; success only for the first account with the typed name whose decrypted stored password equals the typed one, and under the librarian role only for "admin" |
| Auth.UnknownNameIsRejected | code.c:775-811 | A name no account carries is rejected after min(3, lines typed) attempts |
| Auth.CommittedPassword | code.c:733-759 | A committed password meets the role's rule and was typed twice in a row |
| Auth.CommitsAcceptedConfirmedPassword | code.c:750-756 | An acceptable password followed by an equal confirmation is committed |
| Auth.RefusedLineIsSkipped | code.c:734-745 | A typed password the role's rule refuses is skipped, and the prompt starts again with the next line |
| Auth.MismatchStartsOver | code.c:749-751 | A mismatched confirmation commits nothing and the prompt starts over |
| Auth.ChangedPasswordAuthenticates | code.c:752-754 | After the change, the stored password decrypts to the new one, login with it succeeds at the first attempt, the first-login flag is 0, and no other member changes |
| Auth.FirstValidMemberPassword | code.c:455-462 | The chosen line is the first one that the member rule accepts; none when no line passes |
| Auth.DefaultAdminPasswordFacts | code.c:883 | The default password is byte text meeting the librarian rule |
| Auth.BootstrapAdminCanLogIn | code.c:867-892 | On an empty member table, the bootstrap librarian logs in as "admin" at the first attempt with the default password, with the first-login flag set and the next member id |
| Auth.BootstrapKeepsIds | code.c:873-890 | Bootstrap leaves a non-empty member table alone, keeps ids below counters and never lowers a counter |
| Library.LoadSeedsCounters | code.c:233-330 | After the three loads every counter is at least 1 and above every loaded id, and equals 1 or one more than a loaded id |
| Library.BooksSeeded | code.c:247-250 | The seeded book counter is above every loaded book id |
| Library.MembersSeeded | code.c:283-286 | The seeded member counter is above every loaded member id |
| Library.TransactionsSeeded | code.c:324-327 | The seeded transaction counter is above every loaded transaction id |
| Library.SaveThenLoad | code.c:233-344 | Saving and restarting loads the same rows, with counters no higher than before |
| Library.RestartReusesDeletedId | code.c:247-250 | After deleting the newest book and restarting, the next book is issued the deleted id; without a restart it is not |
| Library.ReloadKeepsRows | code.c:233-344 | Whatever the counters were, saving and restarting loads the same rows, with every counter above its table's ids |
| Library.RestartBreaksStock | code.c:247-250 | Add a book, lend it, delete it, save and restart. The store was consistent before the restart and is not after it. The next book is issued id 1 again, and returning the old loan leaves it with quantity 1 and available 2 |
| Library.SeedPastLoans | code.c:247-250 | The corrected book counter is at least the loaded one and above the book id of every loaded loan; nothing else changes |
| Library.RestartPastLoansKeepsStock | code.c:247-250 | With the book counter also raised past every loan's book id, a consistent store that is saved and restarted is still consistent |
| Library.FreshStartIsConsistent | code.c:867-892 | A start without data files, and any bootstrap of the empty store, satisfies the stock and id invariant |
| Library.Library.constructor | code.c:867-892 | The object holds the loaded tables with seeded counters, plus the default librarian when no member was loaded; the activity time is 0 |
| Library.Library.CreateDefaultAdmin | code.c:872-890 | Adds the default librarian, password stored encrypted, only to an empty member table |
| Library.Library.LoadBooks | code.c:233-253 | Appends exactly the books the file's matching lines give and raises the counter past each id; nothing else changes |
| Library.Library.LoadMembers | code.c:269-289 | Appends exactly the members the file's matching lines give and raises the counter past each id |
| Library.Library.LoadTransactions | code.c:305-330 | Appends exactly the transactions the file's matching lines give and raises the counter past each id |
| Library.Library.FindBookIndex | code.c:348-355 | The scan returns what `FindBook` returns |
| Library.Library.FindMemberIndex | code.c:357-364 | The scan returns what `FindMemberById` returns |
| Library.Library.FindMemberNamed | code.c:366-373 | The scan returns what `FindMemberByName` returns |
| Library.Library.AddBook | code.c:378-401 | The new state is `Store.AddBook` of the old one, and the issued id is the old counter |
| Library.Library.DeleteBook | code.c:403-426 | The new state and the result are `Store.DeleteBook` of the old state |
| Library.Library.AddMember | code.c:437-469 | Stores the first typed password the member rule accepts, as `Store.AddMember`; adds nothing if no line passes |
| Library.Library.DeleteMember | code.c:471-494 | The new state and the result are `Store.DeleteMember` of the old state |
| Library.Library.ResetMemberPassword | code.c:513-535 | Unknown id: nothing changes. Otherwise the state is `Store.ResetMemberPassword` with the first accepted password |
| Library.Library.Borrow | code.c:582-623 | The new state and the outcome are `Lending.Borrow` of the old state |
| Library.Library.Return | code.c:625-684 | The new state and the outcome are `Lending.Return` of the old state |
| Library.Library.CountReturnable | code.c:633-647 | The listing loop counts exactly the returnable loans |
| Library.Library.FindOpenLoanIndex | code.c:651-657 | The search returns what `Lending.FindOpenLoan` returns |
| Library.Library.CheckSessionTimeout | code.c:721-728 | Reports a timeout exactly when more than 600 s have passed, without refreshing the activity time; otherwise records `now` |
| Library.Library.CheckCredentials | code.c:775-809 | The attempt loop's outcome is `Auth.Authenticate` of the members and the typed lines |
| Library.Library.TryPassword | code.c:778-791 | One pass of the attempt loop finds what `Auth.Attempt` finds: the looked-up account when its decrypted password equals the typed one |
| Library.Library.Login | code.c:763-811 | The outcome is `Auth.Authenticate`; the activity time is set to `now` exactly on success; the tables are unchanged |
| Library.Library.ChangePassword | code.c:730-760 | The change is committed exactly as `Auth.CommittedPassword` decides, leaving `Auth.ApplyPasswordChange` of the old state; otherwise nothing changes |
| Library.Library.SignIn | code.c:786-797 | After a successful login, the menu opens when the first-login flag is clear or when the mandatory change commits; a rejected login changes nothing |
| Library.ReadRows | code.c:237-252 | The generic load loop keeps the rows up to the first unmatched line and seeds the counter from their ids |
| Library.ShiftDown | code.c:420-423 | The in-place shift loop, with its last slot dropped, leaves `RemoveAt` of the table |
| Library.FirstValidMemberPassword | code.c:455-462 | The prompt loop picks the line `Auth.FirstValidMemberPassword` picks |

## Left out

- File locking (`lock_file`/`unlock_file`): it only guards against other processes.
- Real file I/O: the model works on the files' contents, and a file that cannot be opened is `None`.
  - The write failures of save (`perror` and return) are not modelled.
  - Save is modelled as the text it writes (`BooksText`, `MembersText`, `TransactionsText`).
- Terminal handling is not modelled: masked input, screen clearing, colours, menus, `press_enter_to_continue` and the paginated screens.
  - In code1.1.c, `borrow_book`'s page navigation and its `atoi` reading of the typed id are also not modelled. The borrow itself is the same as in code.c and is modelled.
- Display-only routines are not modelled: `list_all_books`, `view_all_transactions`, `view_my_records` and the `printf` messages.
- `search_books` is not modelled. It is a display routine, and its case-folding substring match does not change state.
- Date rendering with `strftime`/`localtime` is not modelled.
- `time(NULL)` is the parameter `now`.
- The `float` fine is not modelled as a float.
  - Fines are whole cents, so `%.2f` rounding never arises.
  - `%f` forms beyond plain decimal notation (exponents, `inf`, `nan`, hexadecimal) are not parsed.
- The `realloc` growth of the tables and its failure paths: tables are sequences.
- Overflow of C `int`/`long` is not modelled, because integers are unbounded.
- C string limits are not modelled. `fgets` truncates long input to the buffer size. A byte that encrypts to NUL (0xFD) cuts the stored string short.
- Library.Library.AddMember and Library.Library.ResetMemberPassword do not model the source's prompt loop repeating forever. This is because the model's input is finite, so when no typed line passes, nothing is committed.
- Library.Library.ChangePassword does not model the prompt repeating forever when no line passes. This is likewise because the input is finite.
- Library.Library.SignIn does not model the menu loops themselves. The menu body is outside the core, so the method reports only whether the menu opens.
- `get_int_input`'s retry on non-numeric input is not modelled. Numbers reach the operations as integers.

## Findings

| source | as written | input that shows it | evidently intended | confidence | as-written member | corrected member |
|---|---|---|---|---|---|---|
| code1.1.c:607 | With the librarian role and any username other than "admin", the account with that username is looked up, so a member's name and password open the librarian menu | Role 1, username "bob", bob's own password, with members "admin" and "bob" | As in code.c:779-784, the librarian role only looks up "admin" and finds nothing for any other name | not executed | Auth.AsWrittenLetsMemberInAsLibrarian | Auth.LoginLookupRespectsRole |
| code.c:247-250 | The book counter is seeded only from the loaded books, although saved loans may refer to deleted books with higher ids | Add a book (id 1, quantity 1), lend it to member 7, delete it, save, restart, add a book (issued id 1 again), return loan 1: that book shows quantity 1 and available 2 | The counter also passes the book id of every loaded loan, so a new book never inherits an old loan and the stock invariant survives a restart | not executed | Library.RestartBreaksStock | Library.RestartPastLoansKeepsStock |

The first row's corrected lookup is the one `code.c` has, and the model uses it. The second row's corrected seeding, `Library.SeedPastLoans`, is in neither version. The `Library` class therefore keeps the load as written, and `Library.RestartPastLoansKeepsStock` shows what the correction would restore.
