/** The secret login form: the credential check on submit, the error and
    shake flags it sets, and the session flag it writes for the CMS
    dashboard. Session storage becomes a field; the shake timer's expiry is
    its own event. */
module SecretAdmin {
  import opened Wrappers
  import Text
  import SuperAdmin

  const SecretUsername := "l-vs-admin"
  const SecretPassword := "portfolio2025"
  const DashboardPath := "/super-admin-dashboard"
  const WrongCredentials := "Identifiants incorrects"

  /** The form fields, the error text, the shake flag and the stored
      `admin-auth` value. */
  datatype Login = Login(
    username: string,
    password: string,
    error: string,
    shaking: bool,
    sessionFlag: Option<string>)

  const InitialLogin := Login("", "", "", false, None)

  /** `handleSubmit`: both fields must equal the constants exactly. Then
      the session flag becomes `"true"` and the page navigates to the
      dashboard, leaving the error text as it was; otherwise the error is
      shown, the form shakes and nothing is stored or navigated. */
  function Submit(s: Login): (r: (Login, Option<string>))
    ensures r.1.Some? <==> s.username == SecretUsername && s.password == SecretPassword
    ensures r.1.Some? ==>
      && r.1.value == DashboardPath
      && r.0 == s.(sessionFlag := Some("true"))
    ensures r.1.None? ==>
      && r.0.error == WrongCredentials && r.0.shaking
      && r.0.sessionFlag == s.sessionFlag
      && r.0.username == s.username && r.0.password == s.password
  {
    if s.username == SecretUsername && s.password == SecretPassword then
      (s.(sessionFlag := Some("true")), Some(DashboardPath))
    else
      (s.(error := WrongCredentials, shaking := true), None)
  }

  /** The shake timer running out stops the animation and nothing else. */
  function ShakeEnds(s: Login): (r: Login)
    ensures !r.shaking && r == s.(shaking := false)
  {
    s.(shaking := false)
  }

  /** A successful login writes exactly what the dashboard's redirect check
      accepts, so the dashboard stays open and renders, and its logout
      removes the flag again. */
  lemma LoginOpensDashboard(s: Login)
    requires s.username == SecretUsername && s.password == SecretPassword
    ensures var flag := Submit(s).0.sessionFlag;
      && SuperAdmin.IsAuthorized(flag)
      && SuperAdmin.RedirectOnMount(flag).None?
      && SuperAdmin.PassesRenderGuard(flag)
      && !SuperAdmin.IsAuthorized(SuperAdmin.Logout(flag).0)
  {
  }

  /** A failed attempt cannot authorize: the dashboard is left exactly as
      reachable as before. */
  lemma FailureKeepsAuthorization(s: Login)
    requires s.username != SecretUsername || s.password != SecretPassword
    ensures SuperAdmin.IsAuthorized(Submit(s).0.sessionFlag) <==> SuperAdmin.IsAuthorized(s.sessionFlag)
    ensures Submit(s).1.None?
  {
  }

  /** The comparison is case-sensitive: with the right password, a user
      name that differs from the secret one only in letter case is refused. */
  lemma UsernameIsCaseSensitive(s: Login)
    requires s.username != SecretUsername
    requires Text.ToLower(s.username) == Text.ToLower(SecretUsername)
    requires s.password == SecretPassword
    ensures Submit(s).1.None? && Submit(s).0.error == WrongCredentials
  {
  }
}
