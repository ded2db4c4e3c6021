/**
 * The comma-separated line format of the three backing files.
 *
 * save_books writes "%d,%s,%s,%s,%d,%d\n", save_members "%d,%s,%s,%s,%d\n"
 * and save_transactions "%d,%d,%d,%ld,%ld,%ld,%.2f\n"; the load functions
 * read each line back with fscanf, whose directives are modelled here:
 *   %d / %ld   optional white space, an optional sign, one or more digits;
 *   %W[^,]     one to W characters other than a comma (no white space skipped);
 *   ","        exactly one comma;
 *   "\n"       any amount of white space, including none;
 *   %f         optional white space and sign, digits, an optional fraction.
 * A load keeps every record up to the first line that does not match.
 */
module RecordFormat {
  import opened Options
  import opened Records

  // --- characters -----------------------------------------------------------

  predicate IsDigitChar(c: char) { '0' <= c <= '9' }

  /** isspace in the C locale: space, \t, \n, \v, \f, \r. */
  predicate IsSpace(c: char) { c == ' ' || 9 <= c as int <= 13 }

  predicate AllDigits(s: string) {
    forall i :: 0 <= i < |s| ==> IsDigitChar(s[i])
  }

  function DigitChar(d: int): (c: char)
    requires 0 <= d < 10
    ensures IsDigitChar(c)
  {
    (48 + d) as char
  }

  function DigitValue(c: char): int
    requires IsDigitChar(c)
  {
    c as int - 48
  }

  // --- numbers as text ------------------------------------------------------

  /** The decimal digits of n, most significant first, as printf's %d writes them. */
  function NatToString(n: nat): (s: string)
    ensures 1 <= |s| && AllDigits(s)
  {
    if n < 10 then [DigitChar(n)] else NatToString(n / 10) + [DigitChar(n % 10)]
  }

  function IntToString(n: int): (s: string)
    ensures 1 <= |s| && (IsDigitChar(s[0]) || s[0] == '-')
  {
    if n < 0 then "-" + NatToString(-n) else NatToString(n)
  }

  /** The value of a run of decimal digits. */
  function DigitsValue(s: string): nat
    requires AllDigits(s)
  {
    if s == [] then 0 else DigitsValue(s[..|s| - 1]) * 10 + DigitValue(s[|s| - 1])
  }

  lemma {:induction false} DigitsValueOfNatToString(n: nat)
    ensures DigitsValue(NatToString(n)) == n
  {
    if n >= 10 {
      var s := NatToString(n);
      assert s[..|s| - 1] == NatToString(n / 10);
      DigitsValueOfNatToString(n / 10);
    }
  }

  /** "%.2f" of an amount given in cents, followed by `rest`. */
  function CentsText(c: int, rest: string): string {
    var m := if c < 0 then -c else c;
    var digits := NatToString(m / 100) + ("." + (Decimals(m % 100) + rest));
    if c < 0 then "-" + digits else digits
  }

  /** The two digits after the point of "%.2f" for `q` hundredths. */
  function Decimals(q: nat): (d: string)
    requires q < 100
    ensures |d| == 2 && AllDigits(d)
  {
    [DigitChar(q / 10), DigitChar(q % 10)]
  }

  // --- scanning -------------------------------------------------------------

  /** The length of the leading run of digits. */
  function DigitRun(s: string): (k: nat)
    ensures k <= |s| && AllDigits(s[..k])
    ensures k < |s| ==> !IsDigitChar(s[k])
  {
    if s == [] || !IsDigitChar(s[0]) then 0
    else
      var k := 1 + DigitRun(s[1..]);
      assert s[..k] == [s[0]] + s[1..][..k - 1];
      k
  }

  /** The length of the leading run of non-comma characters. */
  function FieldRun(s: string): (k: nat)
    ensures k <= |s|
    ensures forall i :: 0 <= i < k ==> s[i] != ','
    ensures k < |s| ==> s[k] == ','
  {
    if s == [] || s[0] == ',' then 0 else 1 + FieldRun(s[1..])
  }

  /** What a white-space directive leaves over. */
  function SkipSpace(s: string): (r: string)
    ensures |r| <= |s| && r == s[|s| - |r|..]
    ensures r == [] || !IsSpace(r[0])
  {
    if s != [] && IsSpace(s[0]) then SkipSpace(s[1..]) else s
  }

  /** One or more digits and their value. */
  function ScanDigits(u: string): (r: Option<(nat, string)>)
    ensures r.Some? ==> |r.value.1| < |u|
  {
    var k := DigitRun(u);
    if k == 0 then None else Some((DigitsValue(u[..k]), u[k..]))
  }

  /** An optional sign before one or more digits. */
  function ScanSigned(t: string): (r: Option<(int, string)>)
    ensures r.Some? ==> |r.value.1| < |t|
  {
    if |t| > 0 && (t[0] == '-' || t[0] == '+') then
      var p :- ScanDigits(t[1..]);
      var v: int := p.0;
      Some((if t[0] == '-' then -v else v, p.1))
    else
      var p :- ScanDigits(t);
      Some((p.0 as int, p.1))
  }

  /** %d: optional white space, an optional sign, one or more digits. */
  function ParseInt(s: string): (r: Option<(int, string)>)
    ensures r.Some? ==> |r.value.1| < |s|
  {
    ScanSigned(SkipSpace(s))
  }

  /** The fraction of a %f number, read into cents: digits past the second are dropped. */
  function ScanFraction(v: string): (r: (nat, string))
    ensures |r.1| <= |v|
  {
    if |v| > 0 && v[0] == '.' then
      var w := v[1..];
      var j := DigitRun(w);
      var cents := if j == 0 then 0
                   else if j == 1 then DigitValue(w[0]) * 10
                   else DigitValue(w[0]) * 10 + DigitValue(w[1]);
      (cents, w[j..])
    else
      (0, v)
  }

  /** An unsigned %f number in plain decimal notation, in cents. */
  function ScanUnsignedCents(u: string): (r: Option<(nat, string)>)
    ensures r.Some? ==> |r.value.1| < |u|
  {
    var p :- ScanDigits(u);
    var f := ScanFraction(p.1);
    Some((p.0 * 100 + f.0, f.1))
  }

  /** %f restricted to plain decimal notation, read into cents. */
  function ParseCents(s: string): (r: Option<(int, string)>)
    ensures r.Some? ==> |r.value.1| < |s|
  {
    var t := SkipSpace(s);
    if |t| > 0 && (t[0] == '-' || t[0] == '+') then
      var p :- ScanUnsignedCents(t[1..]);
      var v: int := p.0;
      Some((if t[0] == '-' then -v else v, p.1))
    else
      var p :- ScanUnsignedCents(t);
      Some((p.0 as int, p.1))
  }

  /** %W[^,]: one to `width` characters up to the next comma. */
  function ScanField(s: string, width: nat): (r: Option<(string, string)>)
    ensures r.Some? ==> |r.value.1| < |s| && FieldFits(r.value.0, width)
  {
    var run := FieldRun(s);
    var k := if run < width then run else width;
    if k == 0 then None else Some((s[..k], s[k..]))
  }

  /** A literal comma in the format. */
  function ExpectComma(s: string): (r: Option<string>)
    ensures r.Some? ==> |r.value| < |s|
  {
    if |s| > 0 && s[0] == ',' then Some(s[1..]) else None
  }

  function IntThenComma(s: string): (r: Option<(int, string)>)
    ensures r.Some? ==> |r.value.1| < |s|
  {
    var p :- ParseInt(s);
    var rest :- ExpectComma(p.1);
    Some((p.0, rest))
  }

  function FieldThenComma(s: string, width: nat): (r: Option<(string, string)>)
    ensures r.Some? ==> |r.value.1| < |s| && FieldFits(r.value.0, width)
  {
    var p :- ScanField(s, width);
    var rest :- ExpectComma(p.1);
    Some((p.0, rest))
  }

  // --- the three record lines -----------------------------------------------

  const TitleWidth: nat := 99
  const AuthorWidth: nat := 49
  const CategoryWidth: nat := 29
  const NameWidth: nat := 49
  const EmailWidth: nat := 99
  const PasswordWidth: nat := 255

  /** The line save_books writes for `b`, followed by `rest`. */
  function BookLine(b: Book, rest: string): string {
    IntToString(b.id) + ("," + (b.title + ("," + (b.author + ("," + (b.category + (","
      + (IntToString(b.quantity) + ("," + (IntToString(b.available) + ("\n" + rest)))))))))))
  }

  /** The line save_members writes for `m`, followed by `rest`. */
  function MemberLine(m: Member, rest: string): string {
    IntToString(m.id) + ("," + (m.name + ("," + (m.email + ("," + (m.password + (","
      + (IntToString(m.firstLogin) + ("\n" + rest)))))))))
  }

  /** The line save_transactions writes for `t`, followed by `rest`. */
  function TransactionLine(t: Transaction, rest: string): string {
    IntToString(t.id) + ("," + (IntToString(t.bookId) + ("," + (IntToString(t.memberId) + (","
      + (IntToString(t.borrowDate) + ("," + (IntToString(t.dueDate) + ("," + (IntToString(t.returnDate)
      + ("," + CentsText(t.fineCents, "\n" + rest))))))))))))
  }

  /** "%d,%99[^,],%49[^,],%29[^,],%d,%d\n" */
  function ParseBook(s: string): (r: Option<(Book, string)>)
    ensures r.Some? ==> |r.value.1| < |s| && BookStorable(r.value.0)
  {
    var a :- IntThenComma(s);
    var b :- FieldThenComma(a.1, TitleWidth);
    var c :- FieldThenComma(b.1, AuthorWidth);
    var d :- FieldThenComma(c.1, CategoryWidth);
    var e :- IntThenComma(d.1);
    var f :- ParseInt(e.1);
    Some((Book(a.0, b.0, c.0, d.0, e.0, f.0), SkipSpace(f.1)))
  }

  /** "%d,%49[^,],%99[^,],%255[^,],%d\n" */
  function ParseMember(s: string): (r: Option<(Member, string)>)
    ensures r.Some? ==> |r.value.1| < |s| && MemberStorable(r.value.0)
  {
    var a :- IntThenComma(s);
    var b :- FieldThenComma(a.1, NameWidth);
    var c :- FieldThenComma(b.1, EmailWidth);
    var d :- FieldThenComma(c.1, PasswordWidth);
    var e :- ParseInt(d.1);
    Some((Member(a.0, b.0, c.0, d.0, e.0), SkipSpace(e.1)))
  }

  /** "%d,%d,%d,%ld,%ld,%ld,%f\n" */
  function ParseTransaction(s: string): (r: Option<(Transaction, string)>)
    ensures r.Some? ==> |r.value.1| < |s|
  {
    var a :- IntThenComma(s);
    var b :- IntThenComma(a.1);
    var c :- IntThenComma(b.1);
    var d :- IntThenComma(c.1);
    var e :- IntThenComma(d.1);
    var f :- IntThenComma(e.1);
    var g :- ParseCents(f.1);
    Some((Transaction(a.0, b.0, c.0, d.0, e.0, f.0, g.0), SkipSpace(g.1)))
  }

  // --- whole files ----------------------------------------------------------

  function BooksText(bs: seq<Book>): string {
    Lines(BookLine, bs)
  }

  function MembersText(ms: seq<Member>): string {
    Lines(MemberLine, ms)
  }

  function TransactionsText(ts: seq<Transaction>): string {
    Lines(TransactionLine, ts)
  }

  /** The records a load keeps: every one up to the first line that does not match. */
  function ParseBooks(s: string): seq<Book>
    decreases |s|
  {
    match ParseBook(s)
    case None => []
    case Some(p) => [p.0] + ParseBooks(p.1)
  }

  function ParseMembers(s: string): seq<Member>
    decreases |s|
  {
    match ParseMember(s)
    case None => []
    case Some(p) => [p.0] + ParseMembers(p.1)
  }

  function ParseTransactions(s: string): seq<Transaction>
    decreases |s|
  {
    match ParseTransaction(s)
    case None => []
    case Some(p) => [p.0] + ParseTransactions(p.1)
  }

  // --- id seeding -----------------------------------------------------------

  /** One step of the load loop: `if (id >= next) next = id + 1`. */
  function SeedStep(next: int, id: int): int {
    if id >= next then id + 1 else next
  }

  /** The id counter after a load has seen `ids` in file order, starting from `start`. */
  function SeedNextId(start: int, ids: seq<int>): (r: int)
    ensures r >= start
    ensures forall i :: 0 <= i < |ids| ==> ids[i] < r
    ensures r == start || exists i :: 0 <= i < |ids| && r == ids[i] + 1
  {
    if ids == [] then start else SeedStep(SeedNextId(start, ids[..|ids| - 1]), ids[|ids| - 1])
  }

  function BookIds(bs: seq<Book>): (ids: seq<int>)
    ensures |ids| == |bs| && forall i :: 0 <= i < |bs| ==> ids[i] == bs[i].id
  {
    Keys((b: Book) => b.id, bs)
  }

  function MemberIds(ms: seq<Member>): (ids: seq<int>)
    ensures |ids| == |ms| && forall i :: 0 <= i < |ms| ==> ids[i] == ms[i].id
  {
    Keys((m: Member) => m.id, ms)
  }

  function TransactionIds(ts: seq<Transaction>): (ids: seq<int>)
    ensures |ids| == |ts| && forall i :: 0 <= i < |ts| ==> ids[i] == ts[i].id
  {
    Keys((t: Transaction) => t.id, ts)
  }

  // --- round trips ----------------------------------------------------------

  /** A text field that save writes and the matching %W[^,] reads back whole. */
  predicate FieldFits(f: string, width: nat) {
    0 < |f| <= width && forall i :: 0 <= i < |f| ==> f[i] != ','
  }

  predicate BookStorable(b: Book) {
    FieldFits(b.title, TitleWidth) && FieldFits(b.author, AuthorWidth) && FieldFits(b.category, CategoryWidth)
  }

  predicate MemberStorable(m: Member) {
    FieldFits(m.name, NameWidth) && FieldFits(m.email, EmailWidth) && FieldFits(m.password, PasswordWidth)
  }

  /** What may follow a number without being read as more of it. */
  predicate NotDigitStart(rest: string) {
    rest == [] || !IsDigitChar(rest[0])
  }

  /** What may follow a record without being swallowed by the trailing white-space directive. */
  predicate NotSpaceStart(rest: string) {
    rest == [] || !IsSpace(rest[0])
  }

  lemma {:induction false} DigitRunOfDigits(d: string, rest: string)
    requires AllDigits(d) && NotDigitStart(rest)
    ensures DigitRun(d + rest) == |d|
  {
    if d != [] {
      assert (d + rest)[1..] == d[1..] + rest;
      DigitRunOfDigits(d[1..], rest);
    }
  }

  lemma ScanDigitsRoundTrip(m: nat, rest: string)
    requires NotDigitStart(rest)
    ensures ScanDigits(NatToString(m) + rest) == Some((m, rest))
  {
    var d := NatToString(m);
    DigitRunOfDigits(d, rest);
    assert (d + rest)[..|d|] == d;
    assert (d + rest)[|d|..] == rest;
    DigitsValueOfNatToString(m);
  }

  lemma NoSpaceBeforeNumber(n: int, rest: string)
    ensures SkipSpace(IntToString(n) + rest) == IntToString(n) + rest
  {
    assert (IntToString(n) + rest)[0] == IntToString(n)[0];
  }

  lemma ScanSignedOfNegative(t: string, u: string, m: nat, rest: string)
    requires t == "-" + u && ScanDigits(u) == Some((m, rest))
    ensures ScanSigned(t) == Some((-(m as int), rest))
  {
    assert t[1..] == u;
  }

  lemma ScanSignedOfUnsigned(t: string, m: nat, rest: string)
    requires |t| > 0 && IsDigitChar(t[0]) && ScanDigits(t) == Some((m, rest))
    ensures ScanSigned(t) == Some((m as int, rest))
  {
  }

  /** Every integer field save writes is read back by %d, and the text after it is left alone. */
  lemma ParseIntRoundTrip(n: int, rest: string)
    requires NotDigitStart(rest)
    ensures ParseInt(IntToString(n) + rest) == Some((n, rest))
  {
    NoSpaceBeforeNumber(n, rest);
    var s := IntToString(n) + rest;
    if n < 0 {
      var u := NatToString(-n) + rest;
      assert s == "-" + u;
      ScanDigitsRoundTrip(-n, rest);
      ScanSignedOfNegative(s, u, -n, rest);
    } else {
      var d := NatToString(n);
      assert s[0] == d[0];
      ScanDigitsRoundTrip(n, rest);
      ScanSignedOfUnsigned(s, n, rest);
    }
  }

  lemma IntThenCommaRoundTrip(n: int, rest: string)
    ensures IntThenComma(IntToString(n) + ("," + rest)) == Some((n, rest))
  {
    ParseIntRoundTrip(n, "," + rest);
  }

  lemma {:induction false} FieldRunOfField(f: string, rest: string)
    requires forall i :: 0 <= i < |f| ==> f[i] != ','
    ensures FieldRun(f + ("," + rest)) == |f|
  {
    if f != [] {
      assert (f + ("," + rest))[1..] == f[1..] + ("," + rest);
      FieldRunOfField(f[1..], rest);
    } else {
      assert (f + ("," + rest))[0] == ',';
    }
  }

  /** A text field that fits its width is read back whole by %W[^,] and the comma after it. */
  lemma FieldRoundTrip(f: string, width: nat, rest: string)
    requires FieldFits(f, width)
    ensures FieldThenComma(f + ("," + rest), width) == Some((f, rest))
  {
    var s := f + ("," + rest);
    FieldRunOfField(f, rest);
    assert s[..|f|] == f;
    assert s[|f|..] == "," + rest;
  }

  /** The two decimals of "%.2f" are read back as the cents they stand for. */
  lemma FractionRoundTrip(q: nat, rest: string)
    requires q < 100 && NotDigitStart(rest)
    ensures ScanFraction("." + (Decimals(q) + rest)) == (q, rest)
  {
    var d := Decimals(q);
    var w := d + rest;
    assert ("." + w)[0] == '.' && ("." + w)[1..] == w;
    DigitRunOfDigits(d, rest);
    assert w[0] == d[0] && w[1] == d[1];
    assert DigitValue(d[0]) * 10 + DigitValue(d[1]) == q;
    assert w[2..] == rest;
  }

  lemma ScanUnsignedCentsOf(u: string, a: nat, v: string, f: nat, rest: string)
    requires ScanDigits(u) == Some((a, v)) && ScanFraction(v) == (f, rest)
    ensures ScanUnsignedCents(u) == Some((a * 100 + f, rest))
  {
  }

  lemma UnsignedCentsRoundTrip(m: nat, rest: string)
    requires NotDigitStart(rest)
    ensures ScanUnsignedCents(NatToString(m / 100) + ("." + (Decimals(m % 100) + rest))) == Some((m, rest))
  {
    var a, q := m / 100, m % 100;
    var v := "." + (Decimals(q) + rest);
    assert v[0] == '.';
    ScanDigitsRoundTrip(a, v);
    FractionRoundTrip(q, rest);
    ScanUnsignedCentsOf(NatToString(a) + v, a, v, q, rest);
  }

  lemma ParseCentsOfNegative(s: string, v: nat, rest: string)
    requires SkipSpace(s) == s && |s| > 0 && s[0] == '-'
    requires ScanUnsignedCents(s[1..]) == Some((v, rest))
    ensures ParseCents(s) == Some((-(v as int), rest))
  {
  }

  lemma ParseCentsOfUnsigned(s: string, v: nat, rest: string)
    requires SkipSpace(s) == s && |s| > 0 && IsDigitChar(s[0])
    requires ScanUnsignedCents(s) == Some((v, rest))
    ensures ParseCents(s) == Some((v, rest))
  {
  }

  /** The text of "%.2f" starts with a sign or a digit. */
  lemma CentsTextShape(c: int, rest: string)
    ensures var m: nat := if c < 0 then -c else c;
            var u := NatToString(m / 100) + ("." + (Decimals(m % 100) + rest));
            |u| > 0 && IsDigitChar(u[0]) &&
            CentsText(c, rest) == (if c < 0 then "-" + u else u)
  {
    var m: nat := if c < 0 then -c else c;
    var u := NatToString(m / 100) + ("." + (Decimals(m % 100) + rest));
    assert u[0] == NatToString(m / 100)[0];
  }

  lemma NoSpaceBeforeSign(u: string)
    ensures SkipSpace("-" + u) == "-" + u
  {
  }

  lemma NoSpaceBeforeDigit(u: string)
    requires |u| > 0 && IsDigitChar(u[0])
    ensures SkipSpace(u) == u
  {
  }

  /** The "%.2f" text of a fine is read back by the %f pattern as the same number of cents. */
  lemma CentsRoundTrip(c: int, rest: string)
    requires NotDigitStart(rest)
    ensures ParseCents(CentsText(c, rest)) == Some((c, rest))
  {
    var m: nat := if c < 0 then -c else c;
    var u := NatToString(m / 100) + ("." + (Decimals(m % 100) + rest));
    UnsignedCentsRoundTrip(m, rest);
    CentsTextShape(c, rest);
    if c < 0 {
      var s := "-" + u;
      NoSpaceBeforeSign(u);
      assert s[1..] == u;
      ParseCentsOfNegative(s, m, rest);
    } else {
      NoSpaceBeforeDigit(u);
      ParseCentsOfUnsigned(u, m, rest);
    }
  }

  lemma SkipNewline(rest: string)
    requires NotSpaceStart(rest)
    ensures SkipSpace("\n" + rest) == rest
  {
    assert ("\n" + rest)[1..] == rest;
  }

  lemma ParseBookSteps(s: string, b: Book, s0: string, s1: string, s2: string, s3: string, s4: string, s5: string)
    requires IntThenComma(s) == Some((b.id, s0))
    requires FieldThenComma(s0, TitleWidth) == Some((b.title, s1))
    requires FieldThenComma(s1, AuthorWidth) == Some((b.author, s2))
    requires FieldThenComma(s2, CategoryWidth) == Some((b.category, s3))
    requires IntThenComma(s3) == Some((b.quantity, s4))
    requires ParseInt(s4) == Some((b.available, s5))
    ensures ParseBook(s) == Some((b, SkipSpace(s5)))
  {
  }

  /** A book line re-parses to the same six fields when its text fields fit their patterns. */
  lemma BookLineRoundTrip(b: Book, rest: string)
    requires BookStorable(b) && NotSpaceStart(rest)
    ensures ParseBook(BookLine(b, rest)) == Some((b, rest))
  {
    var s5 := "\n" + rest;
    var s4 := IntToString(b.available) + s5;
    var s3 := IntToString(b.quantity) + ("," + s4);
    var s2 := b.category + ("," + s3);
    var s1 := b.author + ("," + s2);
    var s0 := b.title + ("," + s1);
    IntThenCommaRoundTrip(b.id, s0);
    FieldRoundTrip(b.title, TitleWidth, s1);
    FieldRoundTrip(b.author, AuthorWidth, s2);
    FieldRoundTrip(b.category, CategoryWidth, s3);
    IntThenCommaRoundTrip(b.quantity, s4);
    ParseIntRoundTrip(b.available, s5);
    SkipNewline(rest);
    ParseBookSteps(BookLine(b, rest), b, s0, s1, s2, s3, s4, s5);
  }

  lemma ParseMemberSteps(s: string, m: Member, s0: string, s1: string, s2: string, s3: string, s4: string)
    requires IntThenComma(s) == Some((m.id, s0))
    requires FieldThenComma(s0, NameWidth) == Some((m.name, s1))
    requires FieldThenComma(s1, EmailWidth) == Some((m.email, s2))
    requires FieldThenComma(s2, PasswordWidth) == Some((m.password, s3))
    requires ParseInt(s3) == Some((m.firstLogin, s4))
    ensures ParseMember(s) == Some((m, SkipSpace(s4)))
  {
  }

  /** A member line re-parses to the same five fields when its text fields fit their patterns. */
  lemma MemberLineRoundTrip(m: Member, rest: string)
    requires MemberStorable(m) && NotSpaceStart(rest)
    ensures ParseMember(MemberLine(m, rest)) == Some((m, rest))
  {
    var s4 := "\n" + rest;
    var s3 := IntToString(m.firstLogin) + s4;
    var s2 := m.password + ("," + s3);
    var s1 := m.email + ("," + s2);
    var s0 := m.name + ("," + s1);
    IntThenCommaRoundTrip(m.id, s0);
    FieldRoundTrip(m.name, NameWidth, s1);
    FieldRoundTrip(m.email, EmailWidth, s2);
    FieldRoundTrip(m.password, PasswordWidth, s3);
    ParseIntRoundTrip(m.firstLogin, s4);
    SkipNewline(rest);
    ParseMemberSteps(MemberLine(m, rest), m, s0, s1, s2, s3, s4);
  }

  lemma ParseTransactionSteps(s: string, t: Transaction,
                              s0: string, s1: string, s2: string, s3: string, s4: string, s5: string, s6: string)
    requires IntThenComma(s) == Some((t.id, s0))
    requires IntThenComma(s0) == Some((t.bookId, s1))
    requires IntThenComma(s1) == Some((t.memberId, s2))
    requires IntThenComma(s2) == Some((t.borrowDate, s3))
    requires IntThenComma(s3) == Some((t.dueDate, s4))
    requires IntThenComma(s4) == Some((t.returnDate, s5))
    requires ParseCents(s5) == Some((t.fineCents, s6))
    ensures ParseTransaction(s) == Some((t, SkipSpace(s6)))
  {
  }

  /** A transaction line always re-parses to the same seven fields. */
  lemma TransactionLineRoundTrip(t: Transaction, rest: string)
    requires NotSpaceStart(rest)
    ensures ParseTransaction(TransactionLine(t, rest)) == Some((t, rest))
  {
    var s6 := "\n" + rest;
    var s5 := CentsText(t.fineCents, s6);
    var s4 := IntToString(t.returnDate) + ("," + s5);
    var s3 := IntToString(t.dueDate) + ("," + s4);
    var s2 := IntToString(t.borrowDate) + ("," + s3);
    var s1 := IntToString(t.memberId) + ("," + s2);
    var s0 := IntToString(t.bookId) + ("," + s1);
    IntThenCommaRoundTrip(t.id, s0);
    IntThenCommaRoundTrip(t.bookId, s1);
    IntThenCommaRoundTrip(t.memberId, s2);
    IntThenCommaRoundTrip(t.borrowDate, s3);
    IntThenCommaRoundTrip(t.dueDate, s4);
    IntThenCommaRoundTrip(t.returnDate, s5);
    CentsRoundTrip(t.fineCents, s6);
    SkipNewline(rest);
    ParseTransactionSteps(TransactionLine(t, rest), t, s0, s1, s2, s3, s4, s5, s6);
  }

  /** Every book line that fits its patterns is read back, and no line opens with white space. */
  lemma BookLinesReadBack()
    ensures ReadsBack(ParseBook, BookLine, BookStorable)
  {
    forall b: Book, rest: string | BookStorable(b) && NotSpaceStart(rest)
      ensures ParseBook(BookLine(b, rest)) == Some((b, rest))
    {
      BookLineRoundTrip(b, rest);
    }
    forall b: Book, rest: string
      ensures NotSpaceStart(BookLine(b, rest))
    {
      assert BookLine(b, rest)[0] == IntToString(b.id)[0];
    }
  }

  lemma MemberLinesReadBack()
    ensures ReadsBack(ParseMember, MemberLine, MemberStorable)
  {
    forall m: Member, rest: string | MemberStorable(m) && NotSpaceStart(rest)
      ensures ParseMember(MemberLine(m, rest)) == Some((m, rest))
    {
      MemberLineRoundTrip(m, rest);
    }
    forall m: Member, rest: string
      ensures NotSpaceStart(MemberLine(m, rest))
    {
      assert MemberLine(m, rest)[0] == IntToString(m.id)[0];
    }
  }

  lemma TransactionLinesReadBack()
    ensures ReadsBack(ParseTransaction, TransactionLine, (t: Transaction) => true)
  {
    forall t: Transaction, rest: string | NotSpaceStart(rest)
      ensures ParseTransaction(TransactionLine(t, rest)) == Some((t, rest))
    {
      TransactionLineRoundTrip(t, rest);
    }
    forall t: Transaction, rest: string
      ensures NotSpaceStart(TransactionLine(t, rest))
    {
      assert TransactionLine(t, rest)[0] == IntToString(t.id)[0];
    }
  }

  /** Saving a book table and loading the file gives the same table back. */
  lemma BooksRoundTrip(bs: seq<Book>)
    requires forall i :: 0 <= i < |bs| ==> BookStorable(bs[i])
    ensures ParseBooks(BooksText(bs)) == bs
  {
    BookLinesReadBack();
    ParseAllBooks(BooksText(bs));
    ParseAllLines(ParseBook, BookLine, BookStorable, bs);
  }

  /** Saving a member table and loading the file gives the same table back. */
  lemma MembersRoundTrip(ms: seq<Member>)
    requires forall i :: 0 <= i < |ms| ==> MemberStorable(ms[i])
    ensures ParseMembers(MembersText(ms)) == ms
  {
    MemberLinesReadBack();
    ParseAllMembers(MembersText(ms));
    ParseAllLines(ParseMember, MemberLine, MemberStorable, ms);
  }

  /** Saving the transaction table and loading the file gives the same table back. */
  lemma TransactionsRoundTrip(ts: seq<Transaction>)
    ensures ParseTransactions(TransactionsText(ts)) == ts
  {
    TransactionLinesReadBack();
    ParseAllTransactions(TransactionsText(ts));
    ParseAllLines(ParseTransaction, TransactionLine, (t: Transaction) => true, ts);
  }

  /**
   * Whatever a load keeps, saving it and loading again keeps the same
   * records: loading only ever yields records the line format can carry.
   */
  lemma {:induction false} ParsedBooksStorable(s: string)
    ensures forall i :: 0 <= i < |ParseBooks(s)| ==> BookStorable(ParseBooks(s)[i])
    decreases |s|
  {
    var r := ParseBook(s);
    if r.Some? {
      ParsedBooksStorable(r.value.1);
    }
  }

  lemma BooksReloadStable(s: string)
    ensures ParseBooks(BooksText(ParseBooks(s))) == ParseBooks(s)
  {
    ParsedBooksStorable(s);
    BooksRoundTrip(ParseBooks(s));
  }

  lemma {:induction false} ParsedMembersStorable(s: string)
    ensures forall i :: 0 <= i < |ParseMembers(s)| ==> MemberStorable(ParseMembers(s)[i])
    decreases |s|
  {
    var r := ParseMember(s);
    if r.Some? {
      ParsedMembersStorable(r.value.1);
    }
  }

  lemma MembersReloadStable(s: string)
    ensures ParseMembers(MembersText(ParseMembers(s))) == ParseMembers(s)
  {
    ParsedMembersStorable(s);
    MembersRoundTrip(ParseMembers(s));
  }

  /** A member whose stored password holds a comma is never read back as itself. */
  lemma CommaInStoredPasswordIsNotReloaded(m: Member, rest: string)
    requires exists i :: 0 <= i < |m.password| && m.password[i] == ','
    ensures ParseMember(MemberLine(m, rest)) != Some((m, rest))
  {
    assert !MemberStorable(m);
  }

  /** A character that can open a %d number once white space is skipped. */
  predicate MayStartNumber(c: char) {
    IsSpace(c) || IsDigitChar(c) || c == '-' || c == '+'
  }

  lemma ParseIntRefuses(t: string)
    requires |t| > 0 && !MayStartNumber(t[0])
    ensures ParseInt(t) == None
  {
  }

  lemma ParseMemberStops(s: string, m: Member, s0: string, s1: string, s2: string, p1: string, s3: string)
    requires IntThenComma(s) == Some((m.id, s0))
    requires FieldThenComma(s0, NameWidth) == Some((m.name, s1))
    requires FieldThenComma(s1, EmailWidth) == Some((m.email, s2))
    requires FieldThenComma(s2, PasswordWidth) == Some((p1, s3))
    requires ParseInt(s3) == None
    ensures ParseMember(s) == None
  {
  }

  /** A stored password that breaks its line: a comma whose next character cannot open the %d of the flag. */
  predicate BreaksMemberLine(m: Member) {
    FieldFits(m.name, NameWidth) && FieldFits(m.email, EmailWidth)
    && exists j :: 0 < j < |m.password| && m.password[j] == ','
                   && FieldFits(m.password[..j], PasswordWidth)
                   && (j + 1 == |m.password| || !MayStartNumber(m.password[j + 1]))
  }

  /** `%255[^,]` stops at the inner comma of `p1,p2`, and the flag's %d then fails. */
  lemma SplitPasswordField(p1: string, p2: string, s4: string)
    requires FieldFits(p1, PasswordWidth)
    requires p2 == [] || !MayStartNumber(p2[0])
    ensures FieldThenComma((p1 + ("," + p2)) + ("," + s4), PasswordWidth) == Some((p1, p2 + ("," + s4)))
    ensures ParseInt(p2 + ("," + s4)) == None
  {
    var s3 := p2 + ("," + s4);
    assert (p1 + ("," + p2)) + ("," + s4) == p1 + ("," + s3);
    FieldRoundTrip(p1, PasswordWidth, s3);
    assert s3[0] == if p2 == [] then ',' else p2[0];
    ParseIntRefuses(s3);
  }

  /** A member line whose password is `p1,p2`, with `p2` unable to open a number, does not match. */
  lemma SplitPasswordIsRefused(m: Member, rest: string, p1: string, p2: string)
    requires FieldFits(m.name, NameWidth) && FieldFits(m.email, EmailWidth) && FieldFits(p1, PasswordWidth)
    requires m.password == p1 + ("," + p2)
    requires p2 == [] || !MayStartNumber(p2[0])
    ensures ParseMember(MemberLine(m, rest)) == None
  {
    var s4 := IntToString(m.firstLogin) + ("\n" + rest);
    var s2 := m.password + ("," + s4);
    var s1 := m.email + ("," + s2);
    var s0 := m.name + ("," + s1);
    IntThenCommaRoundTrip(m.id, s0);
    FieldRoundTrip(m.name, NameWidth, s1);
    FieldRoundTrip(m.email, EmailWidth, s2);
    SplitPasswordField(p1, p2, s4);
    ParseMemberStops(MemberLine(m, rest), m, s0, s1, s2, p1, p2 + ("," + s4));
  }

  /** Such a member line does not match the load pattern. */
  lemma BrokenMemberLineIsRefused(m: Member, rest: string)
    requires BreaksMemberLine(m)
    ensures ParseMember(MemberLine(m, rest)) == None
  {
    var j :| 0 < j < |m.password| && m.password[j] == ','
             && FieldFits(m.password[..j], PasswordWidth)
             && (j + 1 == |m.password| || !MayStartNumber(m.password[j + 1]));
    var p1, p2 := m.password[..j], m.password[j + 1..];
    assert m.password == p1 + ("," + p2);
    SplitPasswordIsRefused(m, rest, p1, p2);
  }

  /**
   * Loading a saved member table whose member `k` has such a password keeps
   * the members before it and drops that member and every later one.
   */
  lemma LoadStopsAtBrokenMember(ms: seq<Member>, k: nat)
    requires k < |ms| && BreaksMemberLine(ms[k])
    requires forall i :: 0 <= i < k ==> MemberStorable(ms[i])
    ensures ParseMembers(MembersText(ms)) == ms[..k]
  {
    MemberLinesReadBack();
    ParseAllMembers(MembersText(ms));
    BrokenMemberLineIsRefused(ms[k], Lines(MemberLine, ms[k + 1..]));
    assert Lines(MemberLine, ms[k..]) == MemberLine(ms[k], Lines(MemberLine, ms[k + 1..])) by {
      assert ms[k..][1..] == ms[k + 1..];
    }
    ParseAllLinesStop(ParseMember, MemberLine, MemberStorable, ms, k);
  }

  // --- id seeding, one id at a time ---------------------------------------

  /** Seeing one more id applies one more SeedStep. */
  lemma SeedNextIdAppend(start: int, ids: seq<int>, id: int)
    ensures SeedNextId(start, ids + [id]) == SeedStep(SeedNextId(start, ids), id)
  {
    assert (ids + [id])[..|ids|] == ids;
  }

  // --- the load loop with any record pattern ----------------------------------

  /** A record pattern that, when it matches, consumes at least one character. */
  ghost predicate Consumes<R>(parse: string -> Option<(R, string)>) {
    forall s :: parse(s).Some? ==> |parse(s).value.1| < |s|
  }

  /** The records a load keeps with pattern `parse`: every one up to the first line that does not match. */
  function ParseAll<R>(parse: string -> Option<(R, string)>, s: string): seq<R>
    requires Consumes(parse)
    decreases |s|
  {
    match parse(s)
    case None => []
    case Some(p) => [p.0] + ParseAll(parse, p.1)
  }

  /** The id of each record, in order. */
  function Keys<R>(key: R -> int, rows: seq<R>): (ids: seq<int>)
    ensures |ids| == |rows| && forall i :: 0 <= i < |rows| ==> ids[i] == key(rows[i])
  {
    if rows == [] then [] else Keys(key, rows[..|rows| - 1]) + [key(rows[|rows| - 1])]
  }

  lemma KeysAppend<R>(key: R -> int, rows: seq<R>, r: R)
    ensures Keys(key, rows + [r]) == Keys(key, rows) + [key(r)]
  {
    assert (rows + [r])[..|rows|] == rows;
  }

  lemma {:induction false} ParseAllBooks(s: string)
    ensures Consumes(ParseBook)
    ensures ParseAll(ParseBook, s) == ParseBooks(s)
    decreases |s|
  {
    match ParseBook(s)
    case None =>
    case Some(p) => ParseAllBooks(p.1);
  }

  lemma {:induction false} ParseAllMembers(s: string)
    ensures Consumes(ParseMember)
    ensures ParseAll(ParseMember, s) == ParseMembers(s)
    decreases |s|
  {
    match ParseMember(s)
    case None =>
    case Some(p) => ParseAllMembers(p.1);
  }

  lemma {:induction false} ParseAllTransactions(s: string)
    ensures Consumes(ParseTransaction)
    ensures ParseAll(ParseTransaction, s) == ParseTransactions(s)
    decreases |s|
  {
    match ParseTransaction(s)
    case None =>
    case Some(p) => ParseAllTransactions(p.1);
  }

  /** The file a save loop writes with line pattern `line`: one line per row, in order. */
  function Lines<R>(line: (R, string) -> string, rows: seq<R>): string {
    if rows == [] then "" else line(rows[0], Lines(line, rows[1..]))
  }

  /**
   * `parse` reads back as itself every line `line` writes for a row meeting
   * `ok`, when the text after it does not open with white space; and no line
   * `line` writes opens with white space.
   */
  ghost predicate ReadsBack<R(!new)>(parse: string -> Option<(R, string)>, line: (R, string) -> string, ok: R -> bool) {
    && (forall r, rest :: ok(r) && NotSpaceStart(rest) ==> parse(line(r, rest)) == Some((r, rest)))
    && (forall r, rest :: NotSpaceStart(line(r, rest)))
  }

  lemma LinesStart<R(!new)>(parse: string -> Option<(R, string)>, line: (R, string) -> string, ok: R -> bool, rows: seq<R>)
    requires ReadsBack(parse, line, ok)
    ensures NotSpaceStart(Lines(line, rows))
  {
  }

  /** A row meeting `ok` is read back first, and the load carries on with the rows after it. */
  lemma ParseAllLinesCons<R(!new)>(parse: string -> Option<(R, string)>, line: (R, string) -> string, ok: R -> bool, rows: seq<R>)
    requires Consumes(parse) && ReadsBack(parse, line, ok)
    requires rows != [] && ok(rows[0])
    ensures ParseAll(parse, Lines(line, rows)) == [rows[0]] + ParseAll(parse, Lines(line, rows[1..]))
  {
    var rest := Lines(line, rows[1..]);
    LinesStart(parse, line, ok, rows[1..]);
    assert parse(line(rows[0], rest)) == Some((rows[0], rest));
  }

  /** Loading what a save loop wrote gives back every row, in order. */
  lemma {:induction false} ParseAllLines<R(!new)>(parse: string -> Option<(R, string)>, line: (R, string) -> string, ok: R -> bool, rows: seq<R>)
    requires Consumes(parse) && ReadsBack(parse, line, ok)
    requires forall i :: 0 <= i < |rows| ==> ok(rows[i])
    ensures ParseAll(parse, Lines(line, rows)) == rows
  {
    if rows != [] {
      ParseAllLinesCons(parse, line, ok, rows);
      ParseAllLines(parse, line, ok, rows[1..]);
      assert [rows[0]] + rows[1..] == rows;
    }
  }

  /** When the text from row `k` on does not match, loading keeps exactly the rows before `k`. */
  lemma {:induction false} ParseAllLinesStop<R(!new)>(parse: string -> Option<(R, string)>, line: (R, string) -> string, ok: R -> bool,
                                                rows: seq<R>, k: nat)
    requires Consumes(parse) && ReadsBack(parse, line, ok)
    requires k < |rows| && forall i :: 0 <= i < k ==> ok(rows[i])
    requires parse(Lines(line, rows[k..])) == None
    ensures ParseAll(parse, Lines(line, rows)) == rows[..k]
  {
    if k == 0 {
      assert rows[0..] == rows;
    } else {
      ParseAllLinesCons(parse, line, ok, rows);
      assert rows[1..][k - 1..] == rows[k..];
      ParseAllLinesStop(parse, line, ok, rows[1..], k - 1);
      assert [rows[0]] + rows[1..][..k - 1] == rows[..k];
    }
  }
}
