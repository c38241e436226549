/** The registration page of src/pages/auth/register.tsx: field validation in
    a fixed order, the new mailbox's address, and where the browser goes after
    a successful sign-up. */
module Register {
  import opened Wrappers
  import opened JsString
  import AuthClient

  const DefaultRootDomain := "localhost:3000"
  /** Registration always creates an address on this domain, whatever the root domain. */
  const MailDomain := "hosenur.email"
  const MinPasswordLength := 8

  const UsernameRequired := "Username is required"
  const PasswordMismatch := "Passwords do not match"
  const PasswordTooShort := "Password must be at least 8 characters"
  const RegistrationFailed := "Registration failed"

  datatype Form = Form(username: string, name: string, password: string, confirm: string)

  /** The username field lower-cases every edit. */
  function OnUsernameInput(typed: string): (username: string)
    ensures |username| == |typed|
    ensures forall i :: 0 <= i < |username| ==> !('A' <= username[i] <= 'Z')
    ensures forall i :: 0 <= i < |typed| ==> username[i] == LowerChar(typed[i])
  {
    ToLower(typed)
  }

  /** Editing an already lower-case username changes nothing. */
  lemma UsernameInputIdempotent(typed: string)
    ensures OnUsernameInput(OnUsernameInput(typed)) == OnUsernameInput(typed)
  {
    ToLowerIdempotent(typed);
  }

  /** What submitting the form does. */
  datatype SubmitStep = ShowError(message: string) | CallSignUp(email: string, password: string, name: string)

  /** `handleSubmit`: the username is checked first, then that the two passwords
      agree, then the length; only a form passing all three reaches `signUp`. */
  function Submit(f: Form): (step: SubmitStep)
    ensures step.CallSignUp? <==>
      f.username != "" && f.password == f.confirm && |f.password| >= MinPasswordLength
    ensures f.username == "" ==> step == ShowError(UsernameRequired)
    ensures f.username != "" && f.password != f.confirm ==> step == ShowError(PasswordMismatch)
    ensures f.username != "" && f.password == f.confirm && |f.password| < MinPasswordLength ==>
      step == ShowError(PasswordTooShort)
    ensures step.CallSignUp? ==>
      step.email == f.username + "@" + MailDomain && step.password == f.password && step.name == f.name
  {
    if f.username == "" then ShowError(UsernameRequired)
    else if f.password != f.confirm then ShowError(PasswordMismatch)
    else if |f.password| < MinPasswordLength then ShowError(PasswordTooShort)
    else CallSignUp(f.username + "@" + MailDomain, f.password, f.name)
  }

  /** Mismatch is reported before length: two different short passwords give
      the mismatch error, not the length error. */
  lemma MismatchBeforeLength(f: Form)
    requires f.username != "" && f.password != f.confirm && |f.password| < MinPasswordLength
    ensures Submit(f) == ShowError(PasswordMismatch)
  {
  }

  /** The submit button is disabled while loading or while any field is empty. */
  predicate SubmitDisabled(loading: bool, f: Form) {
    loading || f.username == "" || f.name == "" || f.password == "" || f.confirm == ""
  }

  /** The button and the validation agree on the username: an enabled button
      never leads to "Username is required", and every sign-up the button
      allows carries a non-empty name. */
  lemma EnabledButtonHasUsername(loading: bool, f: Form)
    requires !SubmitDisabled(loading, f)
    ensures Submit(f) != ShowError(UsernameRequired)
    ensures Submit(f).CallSignUp? ==> Submit(f).name != ""
  {
  }

  /** The address the browser is sent to after signing up: the development
      host on port 3000 when the root domain mentions `localhost`, else the
      tenant's https sub-domain of the root domain. */
  function RedirectUrl(username: string, rootEnv: Option<string>): (url: string)
    ensures Includes(OrElse(rootEnv, DefaultRootDomain), "localhost") ==>
      url == "http://" + username + ".localhost:3000"
    ensures !Includes(OrElse(rootEnv, DefaultRootDomain), "localhost") ==>
      url == "https://" + username + "." + OrElse(rootEnv, DefaultRootDomain)
  {
    var root := OrElse(rootEnv, DefaultRootDomain);
    if Includes(root, "localhost") then "http://" + username + ".localhost:3000"
    else "https://" + username + "." + root
  }

  /** With no root domain configured the redirect is the local development host. */
  lemma DefaultRedirectIsLocal(username: string)
    ensures RedirectUrl(username, None) == "http://" + username + ".localhost:3000"
  {
    assert OccursAt(DefaultRootDomain, "localhost", 0);
  }

  /** What the page does once `signUp` answers. */
  datatype AfterSignUp = Navigate(url: string) | Error(message: string)

  function AfterSignUpStep(o: AuthClient.Outcome, username: string, rootEnv: Option<string>): (a: AfterSignUp)
    ensures a.Navigate? <==> o.Succeeded?
    ensures a.Navigate? ==> a.url == RedirectUrl(username, rootEnv)
    ensures a.Error? ==> a.message == AuthClient.ErrorText(o, RegistrationFailed)
  {
    if o.Succeeded? then Navigate(RedirectUrl(username, rootEnv))
    else Error(AuthClient.ErrorText(o, RegistrationFailed))
  }
}
