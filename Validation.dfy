/** The inquiry-form validator (`validateForm`): a required-field check
    after trimming, then the email pattern `^[^\s@]+@[^\s@]+\.[^\s@]+$`,
    then the phone pattern `^[\d\s\-\(\)\+]+$`; the first failing check
    decides the verdict. */
module Validation {
  import opened Text

  /** The raw values of the form's text fields and the inquiry-type select. */
  datatype Fields = Fields(
    businessName: string,
    contactPerson: string,
    email: string,
    phone: string,
    location: string,
    inquiryType: string,
    volume: string,
    message: string)

  /** Which alert the validator raises, or `Accepted` when it returns true. */
  datatype Verdict = Accepted | MissingRequired | InvalidEmail | InvalidPhone

  // ---------------------------------------------------------------------
  // Email

  /** The class `[^\s@]`. */
  predicate IsEmailChar(c: char) {
    !IsSpace(c) && c != '@'
  }

  predicate AllEmailChars(s: string) {
    forall i :: 0 <= i < |s| ==> IsEmailChar(s[i])
  }

  /** The language of `^[^\s@]+@[^\s@]+\.[^\s@]+$`, read off the pattern:
      `s` splits at an `@` (position `i`) and a later `.` (position `j`)
      into three non-empty runs of `[^\s@]`. */
  ghost predicate EmailPattern(s: string) {
    exists i, j ::
      0 < i && i + 1 < j && j + 1 < |s| && s[i] == '@' && s[j] == '.'
      && AllEmailChars(s[..i]) && AllEmailChars(s[i + 1..j]) && AllEmailChars(s[j + 1..])
  }

  /** The part after the `@`: no whitespace, no `@`, and a `.` that is
      neither its first nor its last character. */
  predicate DomainOk(d: string) {
    AllEmailChars(d) && |d| >= 3 && '.' in d[1..|d| - 1]
  }

  /** Hand-written matcher for the email pattern: cut at the first `@`,
      check the local part and the domain. */
  predicate EmailOk(s: string) {
    match IndexOf(s, '@')
    case None => false
    case Some(k) => k > 0 && AllEmailChars(s[..k]) && DomainOk(s[k + 1..])
  }

  /** Everything the matcher accepts is in the language of the pattern. */
  lemma EmailOkSound(s: string)
    requires EmailOk(s)
    ensures EmailPattern(s)
  {
    var k := IndexOf(s, '@').value;
    var d := s[k + 1..];
    var p :| 1 <= p < |d| - 1 && d[1..|d| - 1][p - 1] == '.';
    var j := k + 1 + p;
    assert s[j] == d[p] == '.';
    assert s[k + 1..j] == d[..p];
    assert s[j + 1..] == d[p + 1..];
    assert AllEmailChars(s[k + 1..j]) && AllEmailChars(s[j + 1..]);
  }

  /** An `@` preceded only by `[^\s@]` characters is the first `@`. */
  lemma FirstAt(s: string, i: nat)
    requires i < |s| && s[i] == '@' && AllEmailChars(s[..i])
    ensures IndexOf(s, '@') == Some(i)
  {
    assert s[..i + 1] == s[..i] + ['@'];
  }

  /** Two runs of `[^\s@]` around one more such character form one run. */
  lemma AllEmailCharsJoin(a: string, c: char, b: string)
    requires AllEmailChars(a) && IsEmailChar(c) && AllEmailChars(b)
    ensures AllEmailChars(a + [c] + b)
  {
    var s := a + [c] + b;
    forall t | 0 <= t < |s| ensures IsEmailChar(s[t]) {
      if t < |a| {
        assert s[t] == a[t];
      } else if t > |a| {
        assert s[t] == b[t - |a| - 1];
      }
    }
  }

  /** The runs after the `@` of a pattern match form a well-shaped domain. */
  lemma DomainOfPattern(s: string, i: nat, j: nat)
    requires i + 1 < j && j + 1 < |s| && s[j] == '.'
    requires AllEmailChars(s[i + 1..j]) && AllEmailChars(s[j + 1..])
    ensures DomainOk(s[i + 1..])
  {
    var d := s[i + 1..];
    assert d == s[i + 1..j] + [s[j]] + s[j + 1..];
    AllEmailCharsJoin(s[i + 1..j], s[j], s[j + 1..]);
    assert d[1..|d| - 1][j - i - 2] == '.';
  }

  /** Everything in the language of the pattern is accepted by the matcher. */
  lemma EmailOkComplete(s: string)
    requires EmailPattern(s)
    ensures EmailOk(s)
  {
    var i, j :|
      0 < i && i + 1 < j && j + 1 < |s| && s[i] == '@' && s[j] == '.'
      && AllEmailChars(s[..i]) && AllEmailChars(s[i + 1..j]) && AllEmailChars(s[j + 1..]);
    FirstAt(s, i);
    DomainOfPattern(s, i, j);
  }

  /** The matcher accepts exactly the language of the pattern. */
  lemma EmailOkMatchesPattern(s: string)
    ensures EmailOk(s) <==> EmailPattern(s)
  {
    if EmailOk(s) { EmailOkSound(s); }
    if EmailPattern(s) { EmailOkComplete(s); }
  }

  /** What the pattern says in plain words: exactly one `@`, no whitespace,
      a non-empty part before the `@`, and after it a `.` that is neither
      the first nor the last character of that part. */
  lemma EmailPatternShape(s: string)
    requires EmailPattern(s)
    ensures multiset(s)['@'] == 1
    ensures forall c :: c in s ==> !IsSpace(c)
    ensures exists k :: 0 < k < |s| && s[k] == '@' && DomainOk(s[k + 1..])
  {
    EmailOkMatchesPattern(s);
    var k := IndexOf(s, '@').value;
    assert s == s[..k] + [s[k]] + s[k + 1..];
    assert '@' !in s[k + 1..];
    assert multiset(s) == multiset(s[..k]) + multiset{'@'} + multiset(s[k + 1..]);
    forall c | c in s ensures !IsSpace(c) {
      var t :| 0 <= t < |s| && s[t] == c;
      if t < k {
        assert s[..k][t] == c;
      } else if t > k {
        assert s[k + 1..][t - k - 1] == c;
      }
    }
  }

  /** The converse: exactly one `@`, no whitespace, a non-empty part before
      the `@` and a well-placed `.` after it make a match. */
  lemma ShapeIsEmailPattern(s: string, k: nat)
    requires multiset(s)['@'] == 1
    requires forall c :: c in s ==> !IsSpace(c)
    requires 0 < k < |s| && s[k] == '@' && DomainOk(s[k + 1..])
    ensures EmailPattern(s)
  {
    assert s == s[..k] + s[k..];
    assert multiset(s) == multiset(s[..k]) + multiset(s[k..]);
    assert s[k..][0] == '@';
    assert multiset(s[k..])['@'] >= 1;
    assert '@' !in s[..k];
    forall t | 0 <= t < k ensures IsEmailChar(s[..k][t]) {
      assert s[..k][t] == s[t] && s[t] in s;
    }
    FirstAt(s, k);
    EmailOkSound(s);
  }

  // ---------------------------------------------------------------------
  // Phone

  /** The class `[\d\s\-\(\)\+]`: an ASCII digit, whitespace, or one of `-()+`. */
  predicate IsPhoneChar(c: char) {
    ('0' <= c <= '9') || IsSpace(c) || c == '-' || c == '(' || c == ')' || c == '+'
  }

  /** The language of `^[\d\s\-\(\)\+]+$`: non-empty, every character in the class. */
  predicate PhoneOk(s: string) {
    |s| > 0 && forall i :: 0 <= i < |s| ==> IsPhoneChar(s[i])
  }

  lemma PhoneExample()
    ensures PhoneOk("+1 (555) 123-4567")
    ensures !PhoneOk("555-CALL-NOW")
  {
    assert !IsPhoneChar("555-CALL-NOW"[4]);
  }

  // ---------------------------------------------------------------------
  // The validator

  /** The required-field check: every field except `inquiryType` is trimmed
      first; `inquiryType` (a select's value) is tested untrimmed. */
  predicate RequiredPresent(f: Fields) {
    Trim(f.businessName) != "" && Trim(f.contactPerson) != "" && Trim(f.email) != ""
    && Trim(f.phone) != "" && Trim(f.location) != "" && f.inquiryType != ""
    && Trim(f.message) != ""
  }

  /** `validateForm` with its alert made explicit: the first failing check
      decides. */
  function Validate(f: Fields): Verdict {
    if !RequiredPresent(f) then MissingRequired
    else if !EmailOk(Trim(f.email)) then InvalidEmail
    else if !PhoneOk(Trim(f.phone)) then InvalidPhone
    else Accepted
  }

  /** The verdict in terms of the fields: a field is missing when it is
      blank; the email and phone checks see the trimmed values and run only
      once every required field is present; the form is accepted only when
      all three checks pass. */
  lemma ValidateSpec(f: Fields)
    ensures Validate(f) == MissingRequired <==>
      IsBlank(f.businessName) || IsBlank(f.contactPerson) || IsBlank(f.email)
      || IsBlank(f.phone) || IsBlank(f.location) || f.inquiryType == ""
      || IsBlank(f.message)
    ensures Validate(f) == InvalidEmail <==> RequiredPresent(f) && !EmailPattern(Trim(f.email))
    ensures Validate(f) == InvalidPhone <==>
      RequiredPresent(f) && EmailPattern(Trim(f.email)) && !PhoneOk(Trim(f.phone))
    ensures Validate(f) == Accepted <==>
      RequiredPresent(f) && EmailPattern(Trim(f.email)) && PhoneOk(Trim(f.phone))
  {
    TrimSpec(f.businessName); TrimSpec(f.contactPerson); TrimSpec(f.email);
    TrimSpec(f.phone); TrimSpec(f.location); TrimSpec(f.message);
    EmailOkMatchesPattern(Trim(f.email));
  }

  /** `validateForm`'s boolean result. */
  predicate ValidateForm(f: Fields) {
    Validate(f) == Accepted
  }

  /** A form that passes has a well-shaped email and a well-shaped phone
      once they are trimmed, and no blank required field. */
  lemma AcceptedFieldsAreWellFormed(f: Fields)
    requires ValidateForm(f)
    ensures !IsBlank(f.businessName) && !IsBlank(f.contactPerson) && !IsBlank(f.email)
    ensures !IsBlank(f.phone) && !IsBlank(f.location) && !IsBlank(f.message)
    ensures f.inquiryType != ""
    ensures |Trim(f.phone)| > 0
    ensures multiset(Trim(f.email))['@'] == 1
    ensures forall i :: 0 <= i < |Trim(f.phone)| ==> IsPhoneChar(Trim(f.phone)[i])
  {
    ValidateSpec(f);
    EmailPatternShape(Trim(f.email));
  }
}
