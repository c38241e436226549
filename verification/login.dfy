/** The sign-in page of src/pages/auth/login.tsx: the tenant is read off the
    browser's host name, the login e-mail is derived from it, and a sign-in is
    only attempted when that e-mail is known. */
module Login {
  import opened Wrappers
  import opened JsString
  import AuthClient

  /** `getSubdomain` falls back to this root domain ... */
  const SubdomainRootDefault := "localhost"
  /** ... while the e-mail address falls back to this one, port included. */
  const EmailRootDefault := "localhost:3000"

  const MissingEmailError := "Email is missing (not on a subdomain)"
  const SignInFailedError := "Sign in failed"
  const PasswordRequiredError := "Password is required"

  /** The development-host test: the name mentions `localhost` or `127.0.0.1`. */
  predicate IsDevHost(h: string) {
    Includes(h, "localhost") || Includes(h, "127.0.0.1")
  }

  /** `"." + rootDomainFormatted`: the root domain without its port, dotted. */
  function RootSuffix(rootEnv: Option<string>): (d: string)
    ensures |d| >= 1 && d[0] == '.'
    ensures d[1..] == Before(OrElse(rootEnv, SubdomainRootDefault), ':')
  {
    "." + Before(OrElse(rootEnv, SubdomainRootDefault), ':')
  }

  /** Without a root domain, or with an empty one, the suffix is `.localhost`. */
  lemma RootSuffixDefault(rootEnv: Option<string>)
    requires rootEnv.None? || rootEnv.value == ""
    ensures RootSuffix(rootEnv) == "." + SubdomainRootDefault
  {
    assert ':' !in SubdomainRootDefault by {
      forall i | 0 <= i < |SubdomainRootDefault| ensures SubdomainRootDefault[i] != ':' {
      }
    }
    BeforeAbsent(SubdomainRootDefault, ':');
    assert OrElse(rootEnv, SubdomainRootDefault) == SubdomainRootDefault;
  }

  /** A configured root domain's port, if any, never reaches the suffix. */
  lemma RootSuffixIgnoresPort(rh: string, port: string)
    requires rh != "" && ':' !in rh
    requires port == "" || port[0] == ':'
    ensures RootSuffix(Some(rh + port)) == "." + rh
  {
    if port == "" {
      assert rh + port == rh;
      BeforeAbsent(rh, ':');
    } else {
      assert rh + port == rh + [':'] + port[1..];
      BeforeAppend(rh, ':', port[1..]);
    }
  }

  /** `getSubdomain()`. `hostname` is `window.location.hostname`, absent when
      the page renders without a window. Production hosts lose the FIRST
      occurrence of the dotted root, not necessarily the suffix. */
  function Subdomain(hostname: Option<string>, rootEnv: Option<string>): (sub: string)
    ensures hostname.None? ==> sub == ""
    ensures hostname.Some? && Includes(hostname.value, ".localhost") ==>
      sub == Before(hostname.value, '.')
    ensures hostname.Some? && IsDevHost(hostname.value) && !Includes(hostname.value, ".localhost") ==>
      sub == ""
    ensures hostname.Some? && !IsDevHost(hostname.value) ==>
      sub == (if EndsWith(hostname.value, RootSuffix(rootEnv))
              then ReplaceFirst(hostname.value, RootSuffix(rootEnv), "") else "")
  {
    match hostname
    case None => ""
    case Some(h) =>
      if IsDevHost(h) then
        if Includes(h, ".localhost") then Before(h, '.') else ""
      else
        assert !Includes(h, ".localhost") by {
          if Includes(h, ".localhost") { DotLocalhostIsDevHost(h); }
        }
        var d := RootSuffix(rootEnv);
        if EndsWith(h, d) then ReplaceFirst(h, d, "") else ""
  }

  /** `.localhost` implies `localhost`, so such a host always takes the
      development branch and yields its first label. */
  lemma DotLocalhostIsDevHost(h: string)
    requires Includes(h, ".localhost")
    ensures IsDevHost(h)
  {
    var i := IndexOf(h, ".localhost", 0).value;
    assert h[i + 1..i + 10] == ".localhost"[1..];
    IncludesAt(h, "localhost", i + 1);
  }

  /** When the dotted root occurs in a production host only as its suffix, the
      first-occurrence removal is exactly suffix stripping. */
  lemma {:induction false} SuffixStripWhenUnique(p: string, rootEnv: Option<string>)
    requires !IsDevHost(p + RootSuffix(rootEnv))
    requires forall j :: 0 <= j < |p| ==> !OccursAt(p + RootSuffix(rootEnv), RootSuffix(rootEnv), j)
    ensures Subdomain(Some(p + RootSuffix(rootEnv)), rootEnv) == p
  {
    ReplaceUniqueSuffix(p, RootSuffix(rootEnv));
  }

  /** A tenant host `<t>.<root host>` whose label has no dot yields `t`: the
      label cannot contain the dotted root, so the first occurrence is the suffix. */
  lemma TenantHostYieldsLabel(t: string, rootEnv: Option<string>)
    requires '.' !in t
    requires !IsDevHost(t + RootSuffix(rootEnv))
    ensures Subdomain(Some(t + RootSuffix(rootEnv)), rootEnv) == t
  {
    var d := RootSuffix(rootEnv);
    var h := t + d;
    forall j | 0 <= j < |t| ensures !OccursAt(h, d, j) {
      assert h[j] == t[j] != '.';
      OccursAtFirst(h, d, j);
    }
    SuffixStripWhenUnique(t, rootEnv);
  }

  /** First-occurrence removal is not suffix stripping: with root `b.c`, the
      host `a.b.cd.b.c` loses its inner `.b.c` and yields `ad.b.c`, where
      suffix stripping would give `a.b.cd`. */
  lemma ReplaceIsNotSuffixStrip()
    ensures ReplaceFirst("a.b.cd.b.c", ".b.c", "") == "ad.b.c"
    ensures "a.b.cd.b.c"[..|"a.b.cd.b.c"| - |".b.c"|] == "a.b.cd"
  {
    var h := "a.b.cd.b.c";
    assert OccursAt(h, ".b.c", 1);
    assert !OccursAt(h, ".b.c", 0) by { assert h[0] != '.'; }
    assert IndexOf(h, ".b.c", 0) == Some(1);
  }

  /** The e-mail shown and submitted: `<subdomain>@<root domain>`, port
      included, or "" without a subdomain. */
  function Email(sub: string, rootEnv: Option<string>): (email: string)
    ensures email == "" <==> sub == ""
    ensures sub != "" ==> email == sub + "@" + OrElse(rootEnv, EmailRootDefault)
  {
    if sub != "" then sub + "@" + OrElse(rootEnv, EmailRootDefault) else ""
  }

  /** The part before `@` of a derived e-mail is the subdomain it came from. */
  lemma EmailLocalPart(sub: string, rootEnv: Option<string>)
    requires sub != "" && '@' !in sub
    ensures Before(Email(sub, rootEnv), '@') == sub
  {
    BeforeAppend(sub, '@', OrElse(rootEnv, EmailRootDefault));
    assert Email(sub, rootEnv) == sub + ['@'] + OrElse(rootEnv, EmailRootDefault);
  }

  /** The zod schema of the form: the password must be non-empty. */
  function PasswordErrors(password: string): (errs: seq<string>)
    ensures errs == [] <==> password != ""
    ensures errs != [] ==> errs == [PasswordRequiredError]
  {
    if |password| < 1 then [PasswordRequiredError] else []
  }

  /** What submitting the form does. */
  datatype SubmitStep = ShowError(message: string) | CallSignIn(email: string, password: string)

  /** `onSubmit`: without an e-mail the page shows an error and never calls `signIn`. */
  function Submit(email: string, password: string): (step: SubmitStep)
    ensures step.CallSignIn? <==> email != ""
    ensures email == "" ==> step == ShowError(MissingEmailError)
    ensures step.CallSignIn? ==> step.email == email && step.password == password
  {
    if email == "" then ShowError(MissingEmailError) else CallSignIn(email, password)
  }

  /** The sign-in button is disabled when the form cannot submit or there is no e-mail. */
  predicate SubmitDisabled(canSubmit: bool, email: string) {
    !canSubmit || email == ""
  }

  /** An enabled button never leads to the missing-e-mail error: the two
      guards agree. */
  lemma EnabledButtonSignsIn(canSubmit: bool, email: string, password: string)
    requires !SubmitDisabled(canSubmit, email)
    ensures Submit(email, password) == CallSignIn(email, password)
  {
  }

  /** What the page does once `signIn` answers. */
  datatype AfterSignIn = Navigate(path: string) | Error(message: string)

  function AfterSignInStep(o: AuthClient.Outcome): (a: AfterSignIn)
    ensures a.Navigate? <==> o.Succeeded?
    ensures a.Navigate? ==> a.path == "/"
    ensures a.Error? ==> a.message == AuthClient.ErrorText(o, SignInFailedError)
  {
    if o.Succeeded? then Navigate("/") else Error(AuthClient.ErrorText(o, SignInFailedError))
  }
}
