/**
 * The sign-up form's submit handler (src/pages/SignUp.tsx): a chain of input
 * checks where the first failing one throws, then the account creation, with
 * every thrown value shown through `handleApiError`.
 */
module SignUp {
  import opened Wrappers
  import opened JsText
  import opened ErrorMessages
  import opened ErrorHandler

  const FILL_ALL_FIELDS: string := "Please fill in all fields"
  const USERNAME_TOO_SHORT: string := "Username must be at least 3 characters long"
  const USERNAME_TOO_LONG: string := "Username must be less than 20 characters"
  const USERNAME_INVALID: string := "Username can only contain letters, numbers, and underscores"
  const PASSWORD_TOO_SHORT: string := "Password must be at least 8 characters long"

  const USERNAME_MIN: nat := 3
  const USERNAME_MAX: nat := 20
  const PASSWORD_MIN: nat := 8

  /** `[a-zA-Z0-9_]`. */
  predicate IsUsernameChar(c: char) {
    'a' <= c <= 'z' || 'A' <= c <= 'Z' || '0' <= c <= '9' || c == '_'
  }

  /** The username pattern: one or more letters, digits or underscores, and nothing else. */
  predicate MatchesUsernamePattern(username: string) {
    |username| > 0 && forall i :: 0 <= i < |username| ==> IsUsernameChar(username[i])
  }

  /** The outcome of the checks: pass, or the message of the Error thrown. */
  datatype Validation = Valid | Invalid(message: string)

  /** Some field is empty once trimmed. */
  predicate FieldsMissing(email: string, password: string, username: string) {
    Trim(email) == [] || Trim(password) == [] || Trim(username) == []
  }

  /** What the form demands of a submission, all conditions at once and in no order. */
  predicate Acceptable(email: string, password: string, username: string) {
    && !FieldsMissing(email, password, username)
    && USERNAME_MIN <= Utf16Length(username) <= USERNAME_MAX
    && MatchesUsernamePattern(username)
    && Utf16Length(password) >= PASSWORD_MIN
  }

  /**
   * The checks of `handleSubmit`, in source order; lengths are JavaScript
   * lengths (UTF-16 code units) of the untrimmed strings.
   */
  function ValidateSignUp(email: string, password: string, username: string): (v: Validation)
    ensures v.Valid? <==> Acceptable(email, password, username)
    ensures FieldsMissing(email, password, username) ==> v == Invalid(FILL_ALL_FIELDS)
    ensures (!FieldsMissing(email, password, username) && Utf16Length(username) < USERNAME_MIN)
            ==> v == Invalid(USERNAME_TOO_SHORT)
    ensures (!FieldsMissing(email, password, username) && USERNAME_MIN <= Utf16Length(username)
             && Utf16Length(username) > USERNAME_MAX)
            ==> v == Invalid(USERNAME_TOO_LONG)
    ensures (!FieldsMissing(email, password, username) && USERNAME_MIN <= Utf16Length(username) <= USERNAME_MAX
             && !MatchesUsernamePattern(username))
            ==> v == Invalid(USERNAME_INVALID)
    ensures (!FieldsMissing(email, password, username) && USERNAME_MIN <= Utf16Length(username) <= USERNAME_MAX
             && MatchesUsernamePattern(username) && Utf16Length(password) < PASSWORD_MIN)
            ==> v == Invalid(PASSWORD_TOO_SHORT)
  {
    if FieldsMissing(email, password, username) then Invalid(FILL_ALL_FIELDS)
    else if Utf16Length(username) < USERNAME_MIN then Invalid(USERNAME_TOO_SHORT)
    else if Utf16Length(username) > USERNAME_MAX then Invalid(USERNAME_TOO_LONG)
    else if !MatchesUsernamePattern(username) then Invalid(USERNAME_INVALID)
    else if Utf16Length(password) < PASSWORD_MIN then Invalid(PASSWORD_TOO_SHORT)
    else Valid
  }

  /** A username that matches the pattern is counted one code unit per character. */
  lemma PatternUsernameLength(username: string)
    requires MatchesUsernamePattern(username)
    ensures Utf16Length(username) == |username|
  {
    assert forall i :: 0 <= i < |username| ==> username[i] as int < 0x10000;
  }

  /** A username that matches the pattern is not blank. */
  lemma PatternUsernameNotBlank(username: string)
    requires MatchesUsernamePattern(username)
    ensures Trim(username) != []
  {
    assert !IsJsWhitespace(username[0]);
  }

  /**
   * A username of 3 to 20 letters, digits and underscores passes the username
   * checks: the upper bound 20 itself is accepted.
   */
  lemma UsernameBoundsInclusive(email: string, password: string, username: string)
    requires Trim(email) != [] && Trim(password) != [] && Utf16Length(password) >= PASSWORD_MIN
    requires USERNAME_MIN <= |username| <= USERNAME_MAX && MatchesUsernamePattern(username)
    ensures ValidateSignUp(email, password, username) == Valid
  {
    PatternUsernameLength(username);
    PatternUsernameNotBlank(username);
  }

  /** What the user ends up with after submitting. */
  datatype Outcome = Navigated | ShowError(message: string)

  /** Whether `signup` was called, and the outcome. */
  datatype Submission = Submission(signupCalled: bool, outcome: Outcome)

  /**
   * `handleSubmit` as written: a failed check throws a plain Error, which is
   * passed to `handleApiError` like any other thrown value. `signupError` is
   * what `signup` throws (None when it succeeds) and `online` is `navigator.onLine`.
   */
  function HandleSubmit(email: string, password: string, username: string,
                        signupError: Option<Thrown>, online: bool): (r: Submission)
    ensures r.signupCalled <==> Acceptable(email, password, username)
    ensures !Acceptable(email, password, username) ==>
      r.outcome == ShowError(HandleApiError(PlainError(ValidateSignUp(email, password, username).message), online))
    ensures Acceptable(email, password, username) ==>
      r.outcome == (if signupError.None? then Navigated else ShowError(HandleApiError(signupError.value, online)))
  {
    match ValidateSignUp(email, password, username)
    case Invalid(message) => Submission(false, ShowError(HandleApiError(PlainError(message), online)))
    case Valid =>
      match signupError
      case None => Submission(true, Navigated)
      case Some(e) => Submission(true, ShowError(HandleApiError(e, online)))
  }

  /**
   * As written, a rejected submission never shows why: the message is the
   * generic UNKNOWN_ERROR whichever check failed.
   */
  lemma ValidationMessageHidden(email: string, password: string, username: string,
                                signupError: Option<Thrown>, online: bool)
    requires !Acceptable(email, password, username)
    ensures HandleSubmit(email, password, username, signupError, online).outcome == ShowError(UNKNOWN_ERROR)
  {
    PlainErrorIsUnknown(ValidateSignUp(email, password, username).message, online);
  }

  /**
   * A submission the form's own constraints let through (every field filled,
   * the username within the input's pattern and its 3 to 20 limits) with a
   * seven-character password: the user sees the generic message, not the
   * password rule.
   */
  lemma ShortPasswordShowsGenericMessage(online: bool)
    ensures ValidateSignUp("a@b.c", "abcdefg", "abc") == Invalid(PASSWORD_TOO_SHORT)
    ensures HandleSubmit("a@b.c", "abcdefg", "abc", None, online).outcome == ShowError(UNKNOWN_ERROR)
    ensures UNKNOWN_ERROR != PASSWORD_TOO_SHORT
  {
    var email, password, username := "a@b.c", "abcdefg", "abc";
    assert !IsJsWhitespace(email[0]) && !IsJsWhitespace(password[0]);
    assert MatchesUsernamePattern(username);
    PatternUsernameNotBlank(username);
    PatternUsernameLength(username);
    PatternUsernameLength(password);
    assert !FieldsMissing(email, password, username);
    ValidationMessageHidden(email, password, username, None, online);
  }

  /**
   * `handleSubmit` as evidently intended: the check's Error is a
   * ValidationError, so `handleApiError` shows its own message.
   */
  function HandleSubmitIntended(email: string, password: string, username: string,
                                signupError: Option<Thrown>, online: bool): (r: Submission)
    ensures r.signupCalled <==> Acceptable(email, password, username)
    ensures !Acceptable(email, password, username) ==>
      r.outcome == ShowError(ValidateSignUp(email, password, username).message)
    ensures Acceptable(email, password, username) ==>
      r == HandleSubmit(email, password, username, signupError, online)
  {
    match ValidateSignUp(email, password, username)
    case Invalid(message) => Submission(false, ShowError(HandleApiError(JsError("ValidationError", message), online)))
    case Valid =>
      match signupError
      case None => Submission(true, Navigated)
      case Some(e) => Submission(true, ShowError(HandleApiError(e, online)))
  }
}
