/**
 * The contact form's client-side checks: required fields after trimming,
 * then the e-mail format, and the class the feedback line gets.
 */
module Contact {
  import opened Wrappers
  import opened JsText

  /** A character the class `[^\s@]` admits. */
  predicate IsAddressChar(c: char) {
    !IsJsSpace(c) && c != '@'
  }

  /** Every character of `s` is admitted by `[^\s@]`. */
  predicate AddressChars(s: string) {
    forall k :: 0 <= k < |s| ==> IsAddressChar(s[k])
  }

  /**
   * The language of `/^[^\s@]+@[^\s@]+\.[^\s@]+$/`: a non-empty local part,
   * `@`, a non-empty run, `.`, and a non-empty run, none of the three runs
   * holding white space or `@`.
   */
  ghost predicate MatchesEmailPattern(s: string) {
    exists i, j :: 0 < i && i + 1 < j && j + 1 < |s| && s[i] == '@' && s[j] == '.' &&
      AddressChars(s[..i]) && AddressChars(s[i + 1..j]) && AddressChars(s[j + 1..])
  }

  /** The first index of `c` in `s`, or `|s|` when there is none. */
  function IndexOf(s: string, c: char): (i: nat)
    ensures i <= |s|
    ensures i < |s| ==> s[i] == c
    ensures forall k :: 0 <= k < i ==> s[k] != c
  {
    if s == [] then 0
    else if s[0] == c then 0
    else 1 + IndexOf(s[1..], c)
  }

  /**
   * `validateEmail`: no white space, exactly one `@`, not at the start, and
   * after it a `.` that is neither the first nor the last character of the domain.
   */
  function ValidEmail(email: string): bool {
    var at := IndexOf(email, '@');
    0 < at < |email| &&
    var local, domain := email[..at], email[at + 1..];
    AddressChars(local) && AddressChars(domain) && |domain| >= 3 && '.' in domain[1..|domain| - 1]
  }

  /** `ValidEmail` accepts exactly the strings the regular expression matches. */
  lemma ValidEmailMatchesPattern(s: string)
    ensures ValidEmail(s) <==> MatchesEmailPattern(s)
  {
    if ValidEmail(s) {
      ValidEmailIsMatch(s);
    }
    if MatchesEmailPattern(s) {
      var i, j :| 0 < i && i + 1 < j && j + 1 < |s| && s[i] == '@' && s[j] == '.' &&
        AddressChars(s[..i]) && AddressChars(s[i + 1..j]) && AddressChars(s[j + 1..]);
      MatchIsValidEmail(s, i, j);
    }
  }

  lemma ValidEmailIsMatch(s: string)
    requires ValidEmail(s)
    ensures MatchesEmailPattern(s)
  {
    var at := IndexOf(s, '@');
    var domain := s[at + 1..];
    var inner := domain[1..|domain| - 1];
    var m :| 0 <= m < |inner| && inner[m] == '.';
    var j := at + 2 + m;
    assert s[j] == '.';
    var mid, last := s[at + 1..j], s[j + 1..];
    assert AddressChars(mid) by {
      forall k | 0 <= k < |mid| ensures IsAddressChar(mid[k]) {
        assert mid[k] == domain[k];
      }
    }
    assert AddressChars(last) by {
      forall k | 0 <= k < |last| ensures IsAddressChar(last[k]) {
        assert last[k] == domain[j - at + k];
      }
    }
  }

  lemma MatchIsValidEmail(s: string, i: nat, j: nat)
    requires 0 < i && i + 1 < j && j + 1 < |s| && s[i] == '@' && s[j] == '.'
    requires AddressChars(s[..i]) && AddressChars(s[i + 1..j]) && AddressChars(s[j + 1..])
    ensures ValidEmail(s)
  {
    var local, mid, last := s[..i], s[i + 1..j], s[j + 1..];
    forall k | 0 <= k < i ensures s[k] != '@' {
      assert s[k] == local[k];
    }
    assert IndexOf(s, '@') == i;
    var domain := s[i + 1..];
    assert AddressChars(domain) by {
      forall k | 0 <= k < |domain| ensures IsAddressChar(domain[k]) {
        if k < j - i - 1 {
          assert domain[k] == mid[k];
        } else if k > j - i - 1 {
          assert domain[k] == last[k - (j - i)];
        }
      }
    }
    assert domain[1..|domain| - 1][j - i - 2] == '.';
  }

  /** Valid addresses hold no white space and exactly one `@`, which is not the first character. */
  lemma ValidEmailShape(s: string)
    requires ValidEmail(s)
    ensures forall k :: 0 <= k < |s| ==> !IsJsSpace(s[k])
    ensures multiset(s)['@'] == 1 && s[0] != '@'
  {
    var at := IndexOf(s, '@');
    var local, domain := s[..at], s[at + 1..];
    assert s == local + [s[at]] + domain;
    forall k | 0 <= k < |s| ensures !IsJsSpace(s[k]) {
      if k < at { assert s[k] == local[k]; } else if k > at { assert s[k] == domain[k - at - 1]; }
    }
    assert '@' !in local;
    assert '@' !in domain;
    assert multiset(s) == multiset(local) + multiset{'@'} + multiset(domain);
  }

  /** A well-formed address passes. */
  lemma ValidEmailAccepts()
    ensures ValidEmail("a@b.c")
  {
    assert IndexOf("a@b.c", '@') == 1;
    assert "a@b.c"[2..][1..2] == ".";
  }

  /** An address without a dot after `@`, one starting with `@` and one with two `@` fail. */
  lemma ValidEmailRejects()
    ensures !ValidEmail("a@b")
    ensures !ValidEmail("@b.c")
    ensures !ValidEmail("a@b@c.d")
  {
    assert IndexOf("@b.c", '@') == 0;
    assert IndexOf("a@b@c.d", '@') == 1;
    assert !IsAddressChar("a@b@c.d"[2..][1]);
  }

  // ----- the submit handler's checks -----

  /** The outcome of the checks: a missing field, a malformed address, or the trimmed values to send. */
  datatype ContactCheck = MissingFields | BadEmail | Ok(name: string, email: string, message: string)

  /** A field's trimmed value, or the empty string when the field is absent. */
  function FieldValue(field: Option<string>): string {
    match field
    case Some(v) => Trim(v)
    case None => ""
  }

  /**
   * The checks of the contact form's submit handler: any field empty after
   * trimming is reported first, whatever the address; otherwise an address
   * the pattern rejects is reported; otherwise the trimmed values go on.
   */
  function CheckContact(nameField: Option<string>, emailField: Option<string>, messageField: Option<string>): (c: ContactCheck)
    ensures c.MissingFields? <==> FieldValue(nameField) == [] || FieldValue(emailField) == [] || FieldValue(messageField) == []
    ensures c.BadEmail? <==> !c.MissingFields? && !MatchesEmailPattern(FieldValue(emailField))
    ensures c.Ok? ==> c == Ok(FieldValue(nameField), FieldValue(emailField), FieldValue(messageField))
  {
    var name, email, message := FieldValue(nameField), FieldValue(emailField), FieldValue(messageField);
    ValidEmailMatchesPattern(email);
    if name == [] || email == [] || message == [] then MissingFields
    else if !ValidEmail(email) then BadEmail
    else Ok(name, email, message)
  }

  /** A field holding only white space counts as missing. */
  lemma BlankFieldIsMissing(nameField: Option<string>, emailField: Option<string>, messageField: Option<string>)
    requires nameField.Some? && AllSpace(nameField.value)
    ensures CheckContact(nameField, emailField, messageField) == MissingFields
  {
    TrimEmptyIffAllSpace(nameField.value);
  }

  /** The message shown when a check fails, with its kind; nothing when the form may be sent. */
  function Rejection(c: ContactCheck): (r: Option<(string, string)>)
    ensures r.None? <==> c.Ok?
    ensures r.Some? ==> r.value.1 == "error"
  {
    match c
    case MissingFields => Some(("Please fill in all fields before sending.", "error"))
    case BadEmail => Some(("Please enter a valid email address.", "error"))
    case Ok(_, _, _) => None
  }

  /** `showFeedback`'s class: `error` and `success` are kept, every other kind shows as `info`. */
  function FeedbackClass(kind: string): (cls: string)
    ensures cls in {"form-feedback error", "form-feedback success", "form-feedback info"}
    ensures cls == "form-feedback error" <==> kind == "error"
    ensures cls == "form-feedback success" <==> kind == "success"
  {
    if kind == "error" then "form-feedback error"
    else if kind == "success" then "form-feedback success"
    else "form-feedback info"
  }

  /** Every failed check is shown in the error style, whichever check failed. */
  lemma RejectionShownAsError(c: ContactCheck)
    ensures Rejection(c).Some? ==> FeedbackClass(Rejection(c).value.1) == "form-feedback error"
    ensures c.MissingFields? || c.BadEmail? ==> Rejection(c).Some?
  {
  }
}
