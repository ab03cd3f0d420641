/** The password change of src/lib/authUtils.ts: two local checks, then the update request to the
    authentication service, whose outcome is an input here. */
module AuthUtils {
  import opened Wrappers

  datatype PasswordUpdateResult = PasswordUpdateResult(success: bool, message: string)

  const MismatchMessage: string := "Passwords do not match"
  const TooShortMessage: string := "Password must be at least 6 characters"
  const SuccessMessage: string := "Password updated successfully!"
  const FallbackMessage: string := "Failed to update password."
  const MinPasswordLength: nat := 6

  /** JavaScript's `length` of a string: UTF-16 code units, so a character outside the Basic
      Multilingual Plane counts twice. */
  function Utf16Length(s: string): (n: nat)
    ensures |s| <= n <= 2 * |s|
  {
    if |s| == 0 then 0
    else (if s[0] as int > 0xFFFF then 2 else 1) + Utf16Length(s[1..])
  }

  /** The checks made before anything is sent, in order: the message of the first that fails, or
      `None` when the password may be submitted. */
  function ValidatePassword(password: string, confirmPassword: string): (r: Option<string>)
    ensures password != confirmPassword ==> r == Some(MismatchMessage)
    ensures password == confirmPassword && Utf16Length(password) < MinPasswordLength ==> r == Some(TooShortMessage)
    ensures r.None? <==> password == confirmPassword && Utf16Length(password) >= MinPasswordLength
  {
    if password != confirmPassword then Some(MismatchMessage)
    else if Utf16Length(password) < MinPasswordLength then Some(TooShortMessage)
    else None
  }

  /** `updateUserPassword`. `serviceError` is the error the authentication service reports for the
      update, `None` when it succeeds; it only matters once both checks pass. */
  function UpdateUserPassword(password: string, confirmPassword: string, serviceError: Option<string>)
    : (r: PasswordUpdateResult)
    ensures r.success <==> ValidatePassword(password, confirmPassword).None? && serviceError.None?
    ensures ValidatePassword(password, confirmPassword).Some? ==>
              r.message == ValidatePassword(password, confirmPassword).value
    ensures r.success ==> r.message == SuccessMessage
    ensures !r.success ==> r.message != ""
    ensures ValidatePassword(password, confirmPassword).None? && serviceError.Some? ==>
              r.message == (if serviceError.value != "" then serviceError.value else FallbackMessage)
  {
    match ValidatePassword(password, confirmPassword)
    case Some(message) => PasswordUpdateResult(false, message)
    case None =>
      match serviceError
      case None => PasswordUpdateResult(true, SuccessMessage)
      case Some(message) => PasswordUpdateResult(false, if message != "" then message else FallbackMessage)
  }

  /** A rejected password never reaches the service: the outcome is the same whatever it would have
      answered. */
  lemma RejectedBeforeService(password: string, confirmPassword: string, e1: Option<string>, e2: Option<string>)
    requires ValidatePassword(password, confirmPassword).Some?
    ensures UpdateUserPassword(password, confirmPassword, e1) == UpdateUserPassword(password, confirmPassword, e2)
  {
  }

  /** The mismatch is reported even when the password is also too short. */
  lemma MismatchCheckedFirst()
    ensures UpdateUserPassword("abc", "abd", None) == PasswordUpdateResult(false, MismatchMessage)
  {
  }

  /** Six characters is long enough; five is not. */
  lemma LengthBoundaryInclusive()
    ensures ValidatePassword("secret", "secret") == None
    ensures ValidatePassword("short", "short") == Some(TooShortMessage)
  {
    assert Utf16Length("secret") == 6;
    assert Utf16Length("short") == 5;
  }

  /** Three characters outside the Basic Multilingual Plane already have length 6. */
  lemma AstralCharactersCountTwice()
    ensures ValidatePassword("\U{1F600}\U{1F600}\U{1F600}", "\U{1F600}\U{1F600}\U{1F600}") == None
  {
    assert Utf16Length("\U{1F600}\U{1F600}\U{1F600}") == 6;
  }
}
