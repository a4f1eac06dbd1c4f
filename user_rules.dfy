/** The pure validators of the user service: the email pattern (shared, as
    the same regular expression, with the user form of the front end), email
    normalisation, the password policy and the role and department
    reference checks. */
module UserRules {
  import opened Common
  import opened Text

  const MaxNameLength := 100
  const MaxEmailLength := 255

  /** One character of the class `[^\s@]`. */
  predicate PartChar(c: char) {
    !IsSpace(c) && c != '@'
  }

  /** `[^\s@]+`. */
  predicate Part(s: string) {
    |s| > 0 && forall i :: 0 <= i < |s| ==> PartChar(s[i])
  }

  /** `/^[^\s@]+@[^\s@]+\.[^\s@]+$/.test(s)`, read as the regular expression
      reads: `s` splits into three runs of `[^\s@]+` around an '@' and a
      '.', in that order. */
  ghost predicate MatchesEmailPattern(s: string) {
    exists at, dot :: 0 <= at < dot < |s| && s[at] == '@' && s[dot] == '.' &&
      Part(s[..at]) && Part(s[at + 1..dot]) && Part(s[dot + 1..])
  }

  /** `validateEmail`, as a scan: no whitespace anywhere, a single '@'
      that is not the first character, and a '.' strictly inside the text
      after it. */
  predicate ValidateEmail(s: string) {
    exists at | 0 < at < |s| :: SingleAtAt(s, at)
  }

  /** `s` has no whitespace, its only '@' is at index `at`, and a '.'
      stands strictly inside the text after it. */
  predicate SingleAtAt(s: string, at: int) {
    && 0 < at < |s|
    && s[at] == '@'
    && (forall i | 0 <= i < |s| :: !IsSpace(s[i]) && (s[i] == '@' ==> i == at))
    && (exists dot | at + 1 < dot < |s| - 1 :: s[dot] == '.')
  }

  /** The scan accepts exactly the strings the regular expression matches. */
  lemma EmailPatternIff(s: string)
    ensures ValidateEmail(s) <==> MatchesEmailPattern(s)
  {
    if ValidateEmail(s) {
      var at :| 0 < at < |s| && SingleAtAt(s, at);
      var dot :| at + 1 < dot < |s| - 1 && s[dot] == '.';
      var local, domain, tld := s[..at], s[at + 1..dot], s[dot + 1..];
      forall i | 0 <= i < |local| ensures PartChar(local[i]) {
        assert local[i] == s[i];
      }
      forall i | 0 <= i < |domain| ensures PartChar(domain[i]) {
        assert domain[i] == s[at + 1 + i];
      }
      forall i | 0 <= i < |tld| ensures PartChar(tld[i]) {
        assert tld[i] == s[dot + 1 + i];
      }
      assert Part(local) && Part(domain) && Part(tld);
    }
    if MatchesEmailPattern(s) {
      var at, dot :| 0 <= at < dot < |s| && s[at] == '@' && s[dot] == '.' &&
        Part(s[..at]) && Part(s[at + 1..dot]) && Part(s[dot + 1..]);
      forall i | 0 <= i < |s| ensures !IsSpace(s[i]) && (s[i] == '@' ==> i == at) {
        if i < at {
          assert s[i] == s[..at][i];
        } else if at < i < dot {
          assert s[i] == s[at + 1..dot][i - at - 1];
        } else if dot < i {
          assert s[i] == s[dot + 1..][i - dot - 1];
        }
      }
      assert at + 1 < dot < |s| - 1 && s[dot] == '.';
      assert SingleAtAt(s, at);
    }
  }

  /** `email.trim().toLowerCase()`. */
  function NormalizeEmail(email: string): string {
    ToLower(Trim(email))
  }

  /** Normalising a normalised email changes nothing, so the uniqueness
      check and the stored value agree. */
  lemma NormalizeIdempotent(email: string)
    ensures NormalizeEmail(NormalizeEmail(email)) == NormalizeEmail(email)
  {
    var t := Trim(email);
    TrimCommutesWithLower(t);
    TrimIdempotent(email);
    ToLowerIdempotent(t);
  }

  /** An email the pattern accepts is still accepted after normalisation,
      which then only lower-cases it. */
  lemma ValidEmailSurvivesNormalization(email: string)
    requires ValidateEmail(email)
    ensures NormalizeEmail(email) == ToLower(email)
    ensures ValidateEmail(NormalizeEmail(email))
  {
    var t := Trim(email);
    assert t == email by {
      ValidEmailHasNoSpace(email);
      TrimOfNoSpace(email);
    }
    assert NormalizeEmail(email) == ToLower(t);
    LowerKeepsValid(email);
  }

  lemma ValidEmailHasNoSpace(s: string)
    requires ValidateEmail(s)
    ensures NoSpace(s)
  {
    var at :| 0 < at < |s| && SingleAtAt(s, at);
  }

  lemma LowerKeepsValid(s: string)
    requires ValidateEmail(s)
    ensures ValidateEmail(ToLower(s))
  {
    var at :| 0 < at < |s| && SingleAtAt(s, at);
    var dot :| at + 1 < dot < |s| - 1 && s[dot] == '.';
    var n := ToLower(s);
    assert n[at] == '@' && n[dot] == '.';
    forall i | 0 <= i < |n| ensures !IsSpace(n[i]) && (n[i] == '@' ==> i == at) {
      assert n[i] == LowerChar(s[i]);
    }
    assert SingleAtAt(n, at);
  }

  predicate IsUpper(c: char) { 'A' <= c <= 'Z' }
  predicate IsLower(c: char) { 'a' <= c <= 'z' }
  predicate IsDecimalDigit(c: char) { '0' <= c <= '9' }

  /** `/[lo-hi]/.test(s)`, scanning from the left. */
  function ContainsInRange(s: string, lo: char, hi: char): (r: bool)
    ensures r <==> exists i :: 0 <= i < |s| && lo <= s[i] <= hi
  {
    if s == [] then false
    else if lo <= s[0] <= hi then true
    else
      var r := ContainsInRange(s[1..], lo, hi);
      assert forall i :: 1 <= i < |s| ==> s[i] == s[1..][i - 1];
      r
  }

  const PasswordTooShort := "Password must be at least 8 characters"
  const PasswordNoUpper := "Password must contain at least one uppercase letter"
  const PasswordNoLower := "Password must contain at least one lowercase letter"
  const PasswordNoDigit := "Password must contain at least one digit"

  /** `validatePassword`: the message of the first rule that fails, or
      null when all four hold. */
  function ValidatePassword(p: string): Option<string> {
    if |p| < 8 then Some(PasswordTooShort)
    else if !ContainsInRange(p, 'A', 'Z') then Some(PasswordNoUpper)
    else if !ContainsInRange(p, 'a', 'z') then Some(PasswordNoLower)
    else if !ContainsInRange(p, '0', '9') then Some(PasswordNoDigit)
    else None
  }

  /** The password policy: at least 8 characters, with an upper-case
      letter, a lower-case letter and a digit. */
  ghost predicate StrongPassword(p: string) {
    && |p| >= 8
    && (exists i :: 0 <= i < |p| && IsUpper(p[i]))
    && (exists i :: 0 <= i < |p| && IsLower(p[i]))
    && (exists i :: 0 <= i < |p| && IsDecimalDigit(p[i]))
  }

  /** `validatePassword` accepts exactly the strong passwords, and names
      the first rule that fails, in the order length, upper case, lower
      case, digit. */
  lemma PasswordPolicy(p: string)
    ensures ValidatePassword(p) == None <==> StrongPassword(p)
    ensures |p| < 8 ==> ValidatePassword(p) == Some(PasswordTooShort)
    ensures |p| >= 8 && (forall i :: 0 <= i < |p| ==> !IsUpper(p[i])) ==> ValidatePassword(p) == Some(PasswordNoUpper)
    ensures ValidatePassword(p) == Some(PasswordNoLower) <==>
      |p| >= 8 && (exists i :: 0 <= i < |p| && IsUpper(p[i])) && (forall i :: 0 <= i < |p| ==> !IsLower(p[i]))
    ensures ValidatePassword(p) == Some(PasswordNoDigit) <==>
      && |p| >= 8
      && (exists i :: 0 <= i < |p| && IsUpper(p[i]))
      && (exists i :: 0 <= i < |p| && IsLower(p[i]))
      && (forall i :: 0 <= i < |p| ==> !IsDecimalDigit(p[i]))
  {
  }

  const InvalidRole := "Invalid role selected"
  const InvalidDepartment := "Invalid department selected"

  /** `validateRoleId`: the id must be one of the stored roles. */
  function ValidateRoleId(roleId: int, roleIds: set<int>): (r: Outcome)
    ensures r.Pass? <==> roleId in roleIds
    ensures r.Fail? ==> r.error.Validation?
  {
    if roleId in roleIds then Pass else Fail(Validation(InvalidRole))
  }

  /** `validateDepartmentId`: a falsy id (null or 0) is not checked; any
      other id must be one of the stored departments. */
  function ValidateDepartmentId(departmentId: Option<int>, departmentIds: set<int>): (r: Outcome)
    ensures r.Pass? <==> NullIfZero(departmentId).None? || departmentId.value in departmentIds
    ensures r.Fail? ==> r.error.Validation?
  {
    if departmentId.None? || departmentId.value == 0 then Pass
    else if departmentId.value in departmentIds then Pass
    else Fail(Validation(InvalidDepartment))
  }
}
