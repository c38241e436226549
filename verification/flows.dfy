/** Properties that span several pages: the server's tenant label, the
    sign-in page's sub-domain and the registry's account URL name the same
    tenant, and the addresses the two auth pages build agree only under one
    root domain. */
module Flows {
  import opened Wrappers
  import opened JsString
  import Proxy
  import Login
  import Register
  import Accounts
  import Cmd

  /** Registration always creates `<u>@hosenur.email`, while sign-in asks for
      `<u>@<root domain>`: the two addresses coincide exactly when the root
      domain is `hosenur.email`. */
  lemma RegisteredAddressSignsIn(u: string, rootEnv: Option<string>)
    requires u != ""
    ensures Login.Email(u, rootEnv) == u + "@" + Register.MailDomain
        <==> OrElse(rootEnv, Login.EmailRootDefault) == Register.MailDomain
  {
    var root := OrElse(rootEnv, Login.EmailRootDefault);
    var p := u + "@";
    assert Login.Email(u, rootEnv) == p + root;
    if p + root == p + Register.MailDomain {
      assert (p + root)[|p|..] == root;
      assert (p + Register.MailDomain)[|p|..] == Register.MailDomain;
    }
  }

  /** On a production root domain without a port, the host `<u>.<root>` that
      registration sends the browser to is read as tenant `u` by the server's
      router and by the sign-in page alike. */
  lemma TenantHostAgrees(u: string, root: string)
    requires u != "" && '.' !in u
    requires root != "" && ':' !in root
    requires !Login.IsDevHost(u + "." + root)
    ensures Proxy.TenantLabel(u + "." + root) == u
    ensures Login.Subdomain(Some(u + "." + root), Some(root)) == u
  {
    assert u + "." + root == u + ['.'] + root;
    BeforeAppend(u, '.', root);
    SubdomainOfTenantHost(u, root);
  }

  lemma SubdomainOfTenantHost(u: string, root: string)
    requires '.' !in u && ':' !in root && root != ""
    requires !Login.IsDevHost(u + "." + root)
    ensures Login.Subdomain(Some(u + "." + root), Some(root)) == u
  {
    assert root + "" == root;
    Login.RootSuffixIgnoresPort(root, "");
    var d := Login.RootSuffix(Some(root));
    assert u + d == u + "." + root;
    Login.TenantHostYieldsLabel(u, Some(root));
  }

  /** The account URL of the address the sign-in page derives is the tenant's
      own sub-domain of the root domain. */
  lemma SignedInAccountUrl(sub: string, root: string)
    requires sub != "" && '@' !in sub
    ensures Accounts.AccountUrl(Login.Email(sub, Some(root)), Some(root)) == "https://" + sub + "." + root
  {
    Accounts.AccountUrlOfAddress(sub, root, root);
  }

  /** On a production root domain the page registration redirects to is the
      account URL the registry later switches to for the new address. */
  lemma RegisterRedirectIsAccountUrl(u: string, root: string)
    requires '@' !in u
    requires root != "" && !Includes(root, "localhost")
    ensures Register.RedirectUrl(u, Some(root)) == Accounts.AccountUrl(u + "@" + Register.MailDomain, Some(root))
  {
    Accounts.AccountUrlOfAddress(u, Register.MailDomain, root);
  }

  /** Sign-out and the post-registration redirect pick the scheme by the same
      test on the same default root, so they agree on http versus https. */
  lemma SameScheme(u: string, rootEnv: Option<string>)
    ensures StartsWith(Cmd.SignOutUrl(rootEnv), "http://")
        <==> StartsWith(Register.RedirectUrl(u, rootEnv), "http://")
  {
    var root := OrElse(rootEnv, Cmd.DefaultRootDomain);
    var a := Cmd.SignOutUrl(rootEnv);
    var b := Register.RedirectUrl(u, rootEnv);
    if Includes(root, "localhost") {
      assert a[..7] == "http://" && b[..7] == "http://";
    } else {
      assert a[4] == 's' && b[4] == 's';
    }
  }
}
