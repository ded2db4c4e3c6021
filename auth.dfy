/**
 * Login, the mandatory password change, the inactivity timeout and the
 * default librarian account. Typed input is a finite sequence of lines the
 * user enters, in order; a prompt loop that runs out of lines has not
 * committed anything.
 */
module Auth {
  import opened Options
  import opened Records
  import opened Store
  import CredentialCodec
  import PasswordPolicy

  /** The role menu choice that selects the librarian login. */
  const LibrarianChoice := 1
  const AdminName := "admin"

  // --- account lookup -------------------------------------------------------

  /**
   * The account login checks the typed password against: under the
   * librarian role only the name "admin" is looked up, under any other
   * choice the typed name is.
   */
  function LoginLookup(members: seq<Member>, choice: int, username: string): Option<nat> {
    if choice == LibrarianChoice then
      (if username == AdminName then FindMemberByName(members, AdminName) else None)
    else FindMemberByName(members, username)
  }

  /** The librarian role reaches only an account named "admin"; the member role finds the first account with the typed name. */
  lemma LoginLookupRespectsRole(members: seq<Member>, choice: int, username: string)
    ensures var r := LoginLookup(members, choice, username);
      (r.Some? ==> r.value < |members| && members[r.value].name == username)
      && (choice == LibrarianChoice && r.Some? ==> members[r.value].name == AdminName)
      && (choice == LibrarianChoice && username != AdminName ==> r.None?)
      && (choice != LibrarianChoice || username == AdminName ==> r == FindMemberByName(members, username))
  {
  }

  /** The lookup as the later, paginated version writes it: the typed name is looked up under either role. */
  function LoginLookupAsWritten(members: seq<Member>, choice: int, username: string): Option<nat> {
    if choice == LibrarianChoice && username == AdminName then FindMemberByName(members, AdminName)
    else FindMemberByName(members, username)
  }

  /**
   * With the librarian role and a member's own name, the later version finds
   * that member, so the member's password opens the librarian menu.
   */
  lemma AsWrittenLetsMemberInAsLibrarian(adminStored: string, bobStored: string)
    ensures var admin := Member(1, AdminName, "admin@library.com", adminStored, 0);
      var bob := Member(2, "bob", "bob@example.com", bobStored, 0);
      LoginLookupAsWritten([admin, bob], LibrarianChoice, "bob") == Some(1)
      && LoginLookup([admin, bob], LibrarianChoice, "bob") == None
  {
    var admin := Member(1, AdminName, "admin@library.com", adminStored, 0);
    var bob := Member(2, "bob", "bob@example.com", bobStored, 0);
    assert AdminName != "bob" by {
      assert AdminName[0] != "bob"[0];
    }
    assert [admin, bob][1..] == [bob];
    assert FindMemberByName([bob], "bob") == Some(0);
  }

  /** Apart from that case, the two versions look up the same account. */
  lemma AsWrittenAgreesElsewhere(members: seq<Member>, choice: int, username: string)
    requires choice != LibrarianChoice || username == AdminName
    ensures LoginLookupAsWritten(members, choice, username) == LoginLookup(members, choice, username)
  {
  }

  // --- password attempts ----------------------------------------------------

  /** One attempt: the looked-up account, when its stored password decrypts to the typed one. */
  function Attempt(members: seq<Member>, choice: int, username: string, typed: string): Option<nat> {
    match LoginLookup(members, choice, username)
    case None => None
    case Some(k) => if CredentialCodec.Decrypt(members[k].password) == typed then Some(k) else None
  }

  datatype LoginOutcome = Authenticated(member: nat, attempts: nat) | Rejected(attempts: nat)

  /** The login loop from attempt `i` onwards, over the typed passwords. */
  function AuthenticateFrom(members: seq<Member>, choice: int, username: string, typed: seq<string>, i: nat): (r: LoginOutcome)
    requires i <= MaxLoginAttempts && i <= |typed|
    requires forall j :: 0 <= j < i ==> Attempt(members, choice, username, typed[j]).None?
    ensures r.Authenticated? ==>
      i < r.attempts <= MaxLoginAttempts && r.attempts <= |typed|
      && Attempt(members, choice, username, typed[r.attempts - 1]) == Some(r.member)
      && forall j :: 0 <= j < r.attempts - 1 ==> Attempt(members, choice, username, typed[j]).None?
    ensures r.Rejected? ==>
      r.attempts == (if |typed| < MaxLoginAttempts then |typed| else MaxLoginAttempts)
      && forall j :: 0 <= j < r.attempts ==> Attempt(members, choice, username, typed[j]).None?
    decreases MaxLoginAttempts - i
  {
    if i == MaxLoginAttempts || i == |typed| then Rejected(i)
    else match Attempt(members, choice, username, typed[i])
      case Some(k) => Authenticated(k, i + 1)
      case None => AuthenticateFrom(members, choice, username, typed, i + 1)
  }

  /** One turn of the login loop: a matching attempt ends it, a failed one moves on to the next. */
  lemma AuthenticateFromStep(members: seq<Member>, choice: int, username: string, typed: seq<string>, i: nat)
    requires i < MaxLoginAttempts && i < |typed|
    requires forall j :: 0 <= j < i ==> Attempt(members, choice, username, typed[j]).None?
    ensures match Attempt(members, choice, username, typed[i])
      case Some(k) => AuthenticateFrom(members, choice, username, typed, i) == Authenticated(k, i + 1)
      case None => AuthenticateFrom(members, choice, username, typed, i) == AuthenticateFrom(members, choice, username, typed, i + 1)
  {
  }

  /** The loop ends rejected once three attempts are spent or no password is left. */
  lemma AuthenticateFromEnd(members: seq<Member>, choice: int, username: string, typed: seq<string>, i: nat)
    requires i <= MaxLoginAttempts && i <= |typed| && (i == MaxLoginAttempts || i == |typed|)
    requires forall j :: 0 <= j < i ==> Attempt(members, choice, username, typed[j]).None?
    ensures AuthenticateFrom(members, choice, username, typed, i) == Rejected(i)
  {
  }

  /** login: up to three passwords are compared; the first that matches the looked-up account logs in. */
  function Authenticate(members: seq<Member>, choice: int, username: string, typed: seq<string>): LoginOutcome {
    AuthenticateFrom(members, choice, username, typed, 0)
  }

  /**
   * The consequences of a login: at most three comparisons, success only
   * with the decrypted stored password of the account the role allows, and
   * under the librarian role only for "admin".
   */
  lemma AuthenticateSound(members: seq<Member>, choice: int, username: string, typed: seq<string>)
    ensures var r := Authenticate(members, choice, username, typed);
      r.attempts <= MaxLoginAttempts
      && (r.Authenticated? ==>
            r.member < |members|
            && members[r.member].name == username
            && CredentialCodec.Decrypt(members[r.member].password) == typed[r.attempts - 1]
            && (choice == LibrarianChoice ==> username == AdminName)
            && FindMemberByName(members, username) == Some(r.member))
  {
    var r := Authenticate(members, choice, username, typed);
    if r.Authenticated? {
      LoginLookupRespectsRole(members, choice, username);
    }
  }

  /** A name no account carries is rejected after every available attempt, whatever is typed. */
  lemma UnknownNameIsRejected(members: seq<Member>, choice: int, username: string, typed: seq<string>)
    requires forall k :: 0 <= k < |members| ==> members[k].name != username
    ensures Authenticate(members, choice, username, typed)
         == Rejected(if |typed| < MaxLoginAttempts then |typed| else MaxLoginAttempts)
  {
    var r := Authenticate(members, choice, username, typed);
    if r.Authenticated? {
      AuthenticateSound(members, choice, username, typed);
    }
  }

  // --- choosing a new password ----------------------------------------------

  /**
   * change_password over the typed lines: a line the role's rule refuses is
   * dropped and that prompt repeats; an accepted one is followed by a
   * confirmation line, and a matching confirmation commits.
   */
  function CommittedPassword(input: seq<string>, isAdmin: bool): (r: Option<string>)
    ensures r.Some? ==> PasswordPolicy.Acceptable(r.value, isAdmin)
    ensures r.Some? ==> exists i :: 0 <= i < |input| - 1 && input[i] == r.value && input[i + 1] == r.value
    decreases |input|
  {
    if input == [] then None
    else if !PasswordPolicy.Acceptable(input[0], isAdmin) then
      var r := CommittedPassword(input[1..], isAdmin);
      assert r.Some? ==> exists i :: 1 <= i < |input| - 1 && input[i] == r.value && input[i + 1] == r.value by {
        if r.Some? {
          var i :| 0 <= i < |input[1..]| - 1 && input[1..][i] == r.value && input[1..][i + 1] == r.value;
          assert input[i + 1] == r.value && input[i + 2] == r.value;
        }
      }
      r
    else if |input| < 2 then None
    else if input[0] == input[1] then Some(input[0])
    else
      var r := CommittedPassword(input[2..], isAdmin);
      assert r.Some? ==> exists i :: 2 <= i < |input| - 1 && input[i] == r.value && input[i + 1] == r.value by {
        if r.Some? {
          var i :| 0 <= i < |input[2..]| - 1 && input[2..][i] == r.value && input[2..][i + 1] == r.value;
          assert input[i + 2] == r.value && input[i + 3] == r.value;
        }
      }
      r
  }

  /** An acceptable password typed twice is committed at once. */
  lemma CommitsAcceptedConfirmedPassword(p: string, isAdmin: bool, later: seq<string>)
    requires PasswordPolicy.Acceptable(p, isAdmin)
    ensures CommittedPassword([p, p] + later, isAdmin) == Some(p)
  {
  }

  /** A line the role's rule refuses is dropped, and the prompt goes on with the lines after it. */
  lemma RefusedLineIsSkipped(p: string, isAdmin: bool, later: seq<string>)
    requires !PasswordPolicy.Acceptable(p, isAdmin)
    ensures CommittedPassword([p] + later, isAdmin) == CommittedPassword(later, isAdmin)
  {
    assert ([p] + later)[1..] == later;
  }

  /** A mismatched confirmation commits nothing; the prompt starts again with the lines after it. */
  lemma MismatchStartsOver(p: string, q: string, isAdmin: bool, later: seq<string>)
    requires PasswordPolicy.Acceptable(p, isAdmin) && p != q
    ensures CommittedPassword([p, q] + later, isAdmin) == CommittedPassword(later, isAdmin)
  {
    assert ([p, q] + later)[2..] == later;
  }

  /** What the commit leaves in the member record: the new password encrypted and the first-login flag cleared. */
  function ApplyPasswordChange(st: Tables, k: nat, password: string): (r: Tables)
    requires k < |st.members|
  {
    st.(members := st.members[k := st.members[k].(password := CredentialCodec.Encrypt(password), firstLogin := 0)])
  }

  /**
   * After a password change the account's stored password decrypts to the
   * new one, so the next login with it succeeds at the first attempt under
   * any role the account may use.
   */
  lemma ChangedPasswordAuthenticates(st: Tables, k: nat, password: string, choice: int, later: seq<string>)
    requires k < |st.members|
    requires CredentialCodec.IsByteString(password)
    requires FindMemberByName(st.members, st.members[k].name) == Some(k)
    requires choice == LibrarianChoice ==> st.members[k].name == AdminName
    ensures var r := ApplyPasswordChange(st, k, password);
      Authenticate(r.members, choice, st.members[k].name, [password] + later) == Authenticated(k, 1)
      && r.members[k].firstLogin == 0
      && |r.members| == |st.members|
      && (forall j :: 0 <= j < |st.members| && j != k ==> r.members[j] == st.members[j])
  {
    var r := ApplyPasswordChange(st, k, password);
    CredentialCodec.DecryptEncrypt(password);
    var name := st.members[k].name;
    assert FindMemberByName(r.members, name) == Some(k) by {
      MembersWithSameNames(st.members, r.members, name);
    }
  }

  /** Changing fields other than the name leaves every name lookup as it was. */
  lemma {:induction false} MembersWithSameNames(a: seq<Member>, b: seq<Member>, name: string)
    requires |a| == |b| && forall j :: 0 <= j < |a| ==> a[j].name == b[j].name
    ensures FindMemberByName(a, name) == FindMemberByName(b, name)
  {
    if a != [] {
      MembersWithSameNames(a[1..], b[1..], name);
    }
  }

  /** The first typed line the member rule accepts, as add_member and reset_member_password prompt for it. */
  function FirstValidMemberPassword(input: seq<string>): (r: Option<nat>)
    ensures r.Some? ==> r.value < |input| && PasswordPolicy.ValidMember(input[r.value])
    ensures r.Some? ==> forall j :: 0 <= j < r.value ==> !PasswordPolicy.ValidMember(input[j])
    ensures r.None? ==> forall j :: 0 <= j < |input| ==> !PasswordPolicy.ValidMember(input[j])
  {
    if input == [] then None
    else if PasswordPolicy.ValidMember(input[0]) then Some(0)
    else match FirstValidMemberPassword(input[1..])
      case None => None
      case Some(k) => Some(k + 1)
  }

  // --- inactivity -----------------------------------------------------------

  /** check_session_timeout's test: more than 600 seconds since the last recorded activity. */
  predicate TimedOut(lastActivity: int, now: int) {
    now - lastActivity > SessionTimeoutSeconds
  }

  // --- the default librarian ------------------------------------------------

  const DefaultAdminPassword := "AdminPassword123!"

  /**
   * The account initialize_system creates when no member was loaded;
   * `stored` is what caesar_encrypt makes of the default password.
   */
  function DefaultAdmin(id: int, stored: string): Member {
    Member(id, AdminName, "admin@library.com", stored, 1)
  }

  /** initialize_system after the loads: add the default librarian only to an empty member table. */
  function Bootstrap(st: Tables, stored: string): Tables {
    if |st.members| == 0 then
      st.(members := [DefaultAdmin(st.nextMemberId, stored)], nextMemberId := st.nextMemberId + 1)
    else st
  }

  /** The default password is single-byte text and meets the librarian rule. */
  lemma DefaultAdminPasswordFacts()
    ensures CredentialCodec.IsByteString(DefaultAdminPassword)
    ensures PasswordPolicy.StrongAdmin(DefaultAdminPassword)
  {
    PasswordPolicy.DefaultAdminPasswordIsStrong();
  }

  /**
   * On a system with no members, the librarian logs in at the first attempt
   * with the password whose encryption the bootstrap stored, and is then
   * made to change it. With DefaultAdminPasswordFacts this covers the
   * default password.
   */
  lemma BootstrapAdminCanLogIn(st: Tables, password: string, later: seq<string>)
    requires |st.members| == 0
    requires CredentialCodec.IsByteString(password)
    ensures var r := Bootstrap(st, CredentialCodec.Encrypt(password));
      Authenticate(r.members, LibrarianChoice, AdminName, [password] + later) == Authenticated(0, 1)
      && r.members[0].firstLogin == 1
      && r.members[0].id == st.nextMemberId
  {
    CredentialCodec.DecryptEncrypt(password);
  }

  /** Bootstrap leaves a non-empty member table alone, never lowers a counter, and keeps ids below the counters. */
  lemma BootstrapKeepsIds(st: Tables, stored: string)
    requires IdsBelowCounters(st)
    ensures IdsBelowCounters(Bootstrap(st, stored)) && CountersNotLowered(st, Bootstrap(st, stored))
    ensures |st.members| > 0 ==> Bootstrap(st, stored) == st
    ensures |Bootstrap(st, stored).members| > 0
  {
  }
}
