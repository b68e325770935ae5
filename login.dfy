/**
 * The login page's two effects (src/app/login/page.tsx): the `error` query
 * parameter picks the message shown, and an authenticated session is sent
 * on to `/admin`.
 */
module Login {
  import opened Wrappers

  const AccessDeniedMessage: string := "You are not authorized to access this area."
  const SignInFailedMessage: string := "An error occurred during sign in. Please try again."
  const AdminPath: string := "/admin"

  /** The session states the identity provider reports. */
  datatype SessionStatus = Loading | Authenticated | Unauthenticated

  /**
   * The message after the `error` parameter (`None` when absent) is read:
   * access denial and other errors have their own messages; an absent or
   * empty parameter is falsy and leaves the message as it was.
   */
  function ErrorMessage(error: Option<string>, current: Option<string>): (r: Option<string>)
    ensures error == Some("AccessDenied") ==> r == Some(AccessDeniedMessage)
    ensures error.Some? && error.value != "" && error.value != "AccessDenied" ==> r == Some(SignInFailedMessage)
    ensures error.None? || error == Some("") ==> r == current
    ensures r != current ==> r.Some? && error.Some? && error.value != ""
  {
    if error == Some("AccessDenied") then Some(AccessDeniedMessage)
    else if error.Some? && error.value != "" then Some(SignInFailedMessage)
    else current
  }

  /** The route pushed for a session status, if any: only an authenticated session is redirected, always to `/admin`. */
  function RedirectFor(status: SessionStatus): (r: Option<string>)
    ensures r.Some? <==> status == Authenticated
    ensures r.Some? ==> r.value == AdminPath
  {
    if status == Authenticated then Some(AdminPath) else None
  }

  class LoginPage {
    var errorMessage: Option<string>
    /** The routes pushed so far, oldest first. */
    var pushed: seq<string>

    constructor ()
      ensures errorMessage.None? && pushed == []
    {
      errorMessage, pushed := None, [];
    }

    /** The effect that runs when the query parameters change. */
    method OnSearchParams(error: Option<string>)
      modifies this
      ensures errorMessage == ErrorMessage(error, old(errorMessage))
      ensures pushed == old(pushed)
    {
      errorMessage := ErrorMessage(error, errorMessage);
    }

    /** The effect that runs when the session status changes. */
    method OnStatus(status: SessionStatus)
      modifies this
      ensures pushed == old(pushed) + (if status == Authenticated then [AdminPath] else [])
      ensures errorMessage == old(errorMessage)
    {
      var target := RedirectFor(status);
      if target.Some? {
        pushed := pushed + [target.value];
      }
    }
  }
}
