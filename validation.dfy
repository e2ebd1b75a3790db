/** The two field validators, `validate_phone` and `validate_email`. Both
    front ends define them with the same body, so they are modelled once.
    Character classes are the ASCII ones: `str.isdigit()` is `0`..`9` and
    the regular-expression class `\w` is letters, digits and `_`. */
module Validation {

  predicate IsDigit(c: char) {
    '0' <= c <= '9'
  }

  /** The class `\w`. */
  predicate IsWordChar(c: char) {
    ('a' <= c <= 'z') || ('A' <= c <= 'Z') || IsDigit(c) || c == '_'
  }

  /** The class `[\w\.-]` used for the local part and the domain. */
  predicate IsAddressChar(c: char) {
    IsWordChar(c) || c == '.' || c == '-'
  }

  predicate AllDigits(s: string) {
    forall i | 0 <= i < |s| :: IsDigit(s[i])
  }

  predicate AllWordChars(s: string) {
    forall i | 0 <= i < |s| :: IsWordChar(s[i])
  }

  predicate AllAddressChars(s: string) {
    forall i | 0 <= i < |s| :: IsAddressChar(s[i])
  }

  /** `phone.isdigit() and len(phone) >= 7`; `isdigit()` is false on the
      empty string, which the length bound excludes anyway. */
  predicate ValidPhone(phone: string) {
    |phone| > 0 && AllDigits(phone) && |phone| >= 7
  }

  lemma ValidPhoneExamples()
    ensures ValidPhone("1234567") && ValidPhone("5551234")
    ensures !ValidPhone("123456") && !ValidPhone("123-4567") && !ValidPhone("")
  {
    assert !IsDigit("123-4567"[3]);
  }

  /** `s` is `l @ d . w` with `l` and `d` non-empty strings over `[\w\.-]`
      and `w` a non-empty string over `\w`, the `@` at offset `at` and the
      `.` at offset `dot`. */
  ghost predicate EmailSplit(s: string, at: int, dot: int) {
    0 < at && at + 1 < dot && dot + 1 < |s| &&
    s[at] == '@' && s[dot] == '.' &&
    AllAddressChars(s[..at]) && AllAddressChars(s[at + 1..dot]) &&
    AllWordChars(s[dot + 1..])
  }

  /** The strings the pattern `^[\w\.-]+@[\w\.-]+\.\w+$` matches, written
      as the existence of a split. */
  ghost predicate MatchesEmailPattern(s: string) {
    exists at, dot :: EmailSplit(s, at, dot)
  }

  /** Offset of the first `c` in `s`, or `|s|` when there is none. */
  function FirstIndexOf(s: string, c: char): (r: nat)
    ensures r <= |s|
    ensures r < |s| ==> s[r] == c
    ensures forall i | 0 <= i < r :: s[i] != c
  {
    if |s| == 0 then 0
    else if s[0] == c then 0
    else 1 + FirstIndexOf(s[1..], c)
  }

  /** Offset of the last `c` in `s`, or -1 when there is none. */
  function LastIndexOf(s: string, c: char): (r: int)
    ensures -1 <= r < |s|
    ensures r >= 0 ==> s[r] == c
    ensures forall i | r < i < |s| :: s[i] != c
  {
    if |s| == 0 then -1
    else if s[|s| - 1] == c then |s| - 1
    else LastIndexOf(s[..|s| - 1], c)
  }

  /** An executable reading of the pattern: a non-empty local part before
      the first `@`; after it, a domain over `[\w\.-]` whose last `.` is
      neither its first character nor its last, followed only by `\w`
      characters. */
  predicate EmailShaped(s: string) {
    var at := FirstIndexOf(s, '@');
    0 < at < |s| && AllAddressChars(s[..at]) &&
    var domain := s[at + 1..];
    var dot := LastIndexOf(domain, '.');
    AllAddressChars(domain) && 0 < dot < |domain| - 1 &&
    AllWordChars(domain[dot + 1..])
  }

  /** `validate_email`: an empty email is accepted, since the field is
      optional; any other must match the pattern. */
  predicate ValidEmail(email: string)
    ensures ValidEmail(email) <==> email == [] || MatchesEmailPattern(email)
  {
    EmailShapedMatchesPattern(email);
    email == [] || EmailShaped(email)
  }

  /** An offset holding `c` with no `c` before it is the first one. */
  lemma FirstIndexOfAt(s: string, c: char, k: nat)
    requires k < |s| && s[k] == c
    requires forall i | 0 <= i < k :: s[i] != c
    ensures FirstIndexOf(s, c) == k
  {
  }

  /** An offset holding `c` with no `c` after it is the last one. */
  lemma LastIndexOfAt(s: string, c: char, k: nat)
    requires k < |s| && s[k] == c
    requires forall i | k < i < |s| :: s[i] != c
    ensures LastIndexOf(s, c) == k
  {
  }

  /** Every string the executable reading accepts matches the pattern. */
  lemma EmailShapedSplits(s: string)
    requires EmailShaped(s)
    ensures MatchesEmailPattern(s)
  {
    var at := FirstIndexOf(s, '@');
    var domain := s[at + 1..];
    var dot := at + 1 + LastIndexOf(domain, '.');
    assert s[at + 1..dot] == domain[..dot - at - 1];
    assert s[dot + 1..] == domain[dot - at..];
    assert EmailSplit(s, at, dot);
  }

  /** A domain made of an address part, a `.` and a word part is made of
      address characters. */
  lemma DomainAddressChars(domain: string, k: nat)
    requires k < |domain| && domain[k] == '.'
    requires AllAddressChars(domain[..k]) && AllWordChars(domain[k + 1..])
    ensures AllAddressChars(domain)
  {
    forall i | 0 <= i < |domain| ensures IsAddressChar(domain[i]) {
      if i < k {
        assert domain[i] == domain[..k][i];
      } else if i > k {
        assert domain[i] == domain[k + 1..][i - k - 1];
      }
    }
  }

  /** Every split the pattern allows is the one the executable reading
      finds: the `@` is the only one, and the `.` is the last one. */
  lemma SplitIsEmailShaped(s: string, at: int, dot: int)
    requires EmailSplit(s, at, dot)
    ensures EmailShaped(s)
  {
    assert forall i | 0 <= i < at :: s[i] == s[..at][i];
    FirstIndexOfAt(s, '@', at);
    var domain := s[at + 1..];
    var k := dot - at - 1;
    assert domain[..k] == s[at + 1..dot];
    assert domain[k + 1..] == s[dot + 1..];
    assert forall i | k < i < |domain| :: domain[i] == s[dot + 1..][i - k - 1];
    LastIndexOfAt(domain, '.', k);
    DomainAddressChars(domain, k);
  }

  /** The executable reading accepts exactly the strings the pattern
      matches. */
  lemma EmailShapedMatchesPattern(s: string)
    ensures EmailShaped(s) <==> MatchesEmailPattern(s)
  {
    if EmailShaped(s) {
      EmailShapedSplits(s);
    }
    if MatchesEmailPattern(s) {
      var at, dot :| EmailSplit(s, at, dot);
      SplitIsEmailShaped(s, at, dot);
    }
  }

  lemma ValidEmailAcceptsShortest()
    ensures ValidEmail("") && ValidEmail("a@b.c")
  {
    var s := "a@b.c";
    assert s[..1] == "a" && s[2..3] == "b" && s[4..] == "c";
    assert EmailSplit(s, 1, 3);
    SplitIsEmailShaped(s, 1, 3);
  }

  lemma ValidEmailAcceptsAddress()
    ensures ValidEmail("bob@x.com")
  {
    var s := "bob@x.com";
    assert s[..3] == "bob" && s[4..5] == "x" && s[6..] == "com";
    assert AllAddressChars("bob") && AllWordChars("com");
    assert EmailSplit(s, 3, 5);
    SplitIsEmailShaped(s, 3, 5);
  }

  /** Without a `.` after the `@` there is no top-level domain. */
  lemma ValidEmailRejectsBareDomain()
    ensures !ValidEmail("a@b")
  {
    forall at, dot | EmailSplit("a@b", at, dot) ensures false {
    }
    EmailShapedMatchesPattern("a@b");
  }

  /** Without an `@` nothing matches, except that the empty email is
      accepted as missing. */
  lemma ValidEmailRejectsNoAt(s: string)
    requires s != [] && forall i | 0 <= i < |s| :: s[i] != '@'
    ensures !ValidEmail(s)
  {
    forall at, dot | EmailSplit(s, at, dot) ensures false {
    }
  }

  lemma ValidEmailRejectsNotAnEmail()
    ensures !ValidEmail("not-an-email")
  {
    var s := "not-an-email";
    assert forall i | 0 <= i < |s| :: s[i] != '@';
    ValidEmailRejectsNoAt(s);
  }
}
