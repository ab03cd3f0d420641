/** The password form of src/pages/Profile.tsx, which repeats the checks of `updateUserPassword`
    inline before calling the authentication service itself. */
module Profile {
  import opened Wrappers
  import AuthUtils

  /** The error message `handleUpdatePassword` shows before any request, `None` when it proceeds. */
  function PasswordFormError(newPassword: string, confirmPassword: string): (r: Option<string>)
    ensures r.Some? ==> r.value in {AuthUtils.MismatchMessage, AuthUtils.TooShortMessage}
  {
    if newPassword != confirmPassword then Some("Passwords do not match")
    else if AuthUtils.Utf16Length(newPassword) < 6 then Some("Password must be at least 6 characters")
    else None
  }

  /** The form applies the same two rules, in the same order, with the same messages. */
  lemma FormMatchesAuthUtils(newPassword: string, confirmPassword: string)
    ensures PasswordFormError(newPassword, confirmPassword) == AuthUtils.ValidatePassword(newPassword, confirmPassword)
  {
  }
}
