/**
 * The reset-password page: two checks in a fixed order guard one call to the
 * identity provider's password update, with a loading flag around the call
 * and navigation to the login page on success.
 */
module ResetPassword {
  import opened Options

  const MIN_PASSWORD_LENGTH: nat := 6
  const LOGIN_PATH: string := "/login"

  datatype ValidationError = TooShort | Mismatch

  /** The form checks: length first, then confirmation. */
  function Validate(password: string, confirmPassword: string): (r: Option<ValidationError>)
    ensures r == Some(TooShort) <==> |password| < MIN_PASSWORD_LENGTH
    ensures r == Some(Mismatch) <==> |password| >= MIN_PASSWORD_LENGTH && password != confirmPassword
    ensures r == None <==> |password| >= MIN_PASSWORD_LENGTH && password == confirmPassword
  {
    if |password| < MIN_PASSWORD_LENGTH then Some(TooShort)
    else if password != confirmPassword then Some(Mismatch)
    else None
  }

  /** A short password is rejected for its length whatever the confirmation holds. */
  lemma ShortPasswordIgnoresConfirmation(password: string, c1: string, c2: string)
    requires |password| < MIN_PASSWORD_LENGTH
    ensures Validate(password, c1) == Validate(password, c2) == Some(TooShort)
  {
  }

  /** One call to the password update, with the loading flag as it stood while the call was in flight. */
  datatype UpdateCall = UpdateCall(password: string, loadingDuringCall: bool)

  datatype ResetOutcome = Rejected(reason: ValidationError) | UpdateFailed(message: string) | Updated

  class ResetPasswordPage {
    var password: string
    var confirmPassword: string
    var loading: bool
    /** The password updates sent to the identity provider, oldest first. */
    var updateCalls: seq<UpdateCall>
    /** The paths navigated to, oldest first. */
    var navigations: seq<string>

    constructor ()
      ensures password == "" && confirmPassword == "" && !loading
      ensures updateCalls == [] && navigations == []
    {
      password := "";
      confirmPassword := "";
      loading := false;
      updateCalls := [];
      navigations := [];
    }

    method SetPassword(value: string)
      modifies this`password
      ensures password == value
    {
      password := value;
    }

    method SetConfirmPassword(value: string)
      modifies this`confirmPassword
      ensures confirmPassword == value
    {
      confirmPassword := value;
    }

    /**
     * Submits the form. `updateError` is the identity provider's answer to the
     * update (an error message, or None on success). A rejected form makes no
     * call; an accepted one makes exactly one, with the typed password, while
     * `loading` is true, and navigates to the login page only on success.
     */
    method HandleResetPassword(updateError: Option<string>) returns (outcome: ResetOutcome)
      requires !loading  // the submit button is disabled while loading
      modifies this`loading, this`updateCalls, this`navigations
      ensures !loading
      ensures Validate(password, confirmPassword).Some? ==>
                outcome == Rejected(Validate(password, confirmPassword).value)
                && updateCalls == old(updateCalls) && navigations == old(navigations)
      ensures Validate(password, confirmPassword).None? ==>
                updateCalls == old(updateCalls) + [UpdateCall(password, true)]
                && (updateError.None? ==> outcome == Updated && navigations == old(navigations) + [LOGIN_PATH])
                && (updateError.Some? ==> outcome == UpdateFailed(updateError.value) && navigations == old(navigations))
    {
      if |password| < MIN_PASSWORD_LENGTH {
        return Rejected(TooShort);
      }
      if password != confirmPassword {
        return Rejected(Mismatch);
      }

      loading := true;
      updateCalls := updateCalls + [UpdateCall(password, loading)];
      loading := false;

      if updateError.Some? {
        outcome := UpdateFailed(updateError.value);
      } else {
        navigations := navigations + [LOGIN_PATH];
        outcome := Updated;
      }
    }
  }
}
