/**
 * The two password strength rules, with the C locale's character classes.
 * `is_strong_admin_password` and `is_valid_member_password` scan the
 * password once, raising a flag per character class; the predicates below
 * say what those scans decide.
 */
module PasswordPolicy {

  const AdminMinLength: nat := 12
  const MemberMinLength: nat := 8

  predicate IsUpper(c: char) { 'A' <= c <= 'Z' }
  predicate IsLower(c: char) { 'a' <= c <= 'z' }
  predicate IsDigit(c: char) { '0' <= c <= '9' }

  /** ispunct in the C locale: a printable, non-space character that is not a letter or digit. */
  predicate IsPunct(c: char) {
    '!' <= c <= '~' && !IsUpper(c) && !IsLower(c) && !IsDigit(c)
  }

  predicate HasUpper(p: string) { exists i :: 0 <= i < |p| && IsUpper(p[i]) }
  predicate HasLower(p: string) { exists i :: 0 <= i < |p| && IsLower(p[i]) }
  predicate HasDigit(p: string) { exists i :: 0 <= i < |p| && IsDigit(p[i]) }
  predicate HasPunct(p: string) { exists i :: 0 <= i < |p| && IsPunct(p[i]) }

  /** The librarian rule: at least 12 characters, with an upper-case letter, a lower-case letter, a digit and a punctuation mark. */
  predicate StrongAdmin(p: string) {
    |p| >= AdminMinLength && HasUpper(p) && HasLower(p) && HasDigit(p) && HasPunct(p)
  }

  /** The member rule: at least 8 characters, with a digit. */
  predicate ValidMember(p: string) {
    |p| >= MemberMinLength && HasDigit(p)
  }

  /** The rule change_password applies for the role it is called with. */
  predicate Acceptable(p: string, isAdmin: bool) {
    if isAdmin then StrongAdmin(p) else ValidMember(p)
  }

  /** is_strong_admin_password: the length test, then the flag-raising scan with its else-if chain. */
  method IsStrongAdminPassword(pass: string) returns (ok: bool)
    ensures ok <==> StrongAdmin(pass)
  {
    if |pass| < AdminMinLength {
      return false;
    }
    var u, l, d, s := false, false, false, false;
    var i := 0;
    while i < |pass|
      invariant 0 <= i <= |pass|
      invariant u <==> exists k :: 0 <= k < i && IsUpper(pass[k])
      invariant l <==> exists k :: 0 <= k < i && IsLower(pass[k])
      invariant d <==> exists k :: 0 <= k < i && IsDigit(pass[k])
      invariant s <==> exists k :: 0 <= k < i && IsPunct(pass[k])
    {
      var c := pass[i];
      if IsUpper(c) {
        u := true;
      } else if IsLower(c) {
        l := true;
      } else if IsDigit(c) {
        d := true;
      } else if IsPunct(c) {
        s := true;
      }
      i := i + 1;
    }
    ok := u && l && d && s;
  }

  /** is_valid_member_password: the length test, then a scan for a digit. */
  method IsValidMemberPassword(pass: string) returns (ok: bool)
    ensures ok <==> ValidMember(pass)
  {
    if |pass| < MemberMinLength {
      return false;
    }
    var d := false;
    var i := 0;
    while i < |pass|
      invariant 0 <= i <= |pass|
      invariant d <==> exists k :: 0 <= k < i && IsDigit(pass[k])
    {
      if IsDigit(pass[i]) {
        d := true;
      }
      i := i + 1;
    }
    ok := d;
  }

  /** The password the bootstrap librarian account is created with meets the librarian rule. */
  lemma DefaultAdminPasswordIsStrong()
    ensures StrongAdmin("AdminPassword123!")
  {
    var p := "AdminPassword123!";
    assert IsUpper(p[0]);
    assert IsLower(p[1]);
    assert IsDigit(p[13]);
    assert IsPunct(p[16]);
  }
}
