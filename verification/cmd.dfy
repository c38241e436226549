/** The command menu of src/components/cmd.tsx: which requests it issues, the
    other signed-in accounts it offers, and the addresses it sends the
    browser to on sign-out and on an account switch. */
module Cmd {
  import opened Wrappers
  import opened JsString
  import Url
  import Accounts

  const DefaultRootDomain := "localhost:3000"
  const SearchPath := "/api/search?q="
  const UsersPath := "/api/users?emails="

  /** `session?.user?.email || ""`. */
  function CurrentEmail(sessionEmail: Option<string>): (email: string)
    ensures sessionEmail.Some? ==> email == sessionEmail.value
    ensures sessionEmail.None? ==> email == ""
  {
    OrElse(sessionEmail, "")
  }

  /** The accounts offered for switching: the registry without the current one. */
  function OtherAccounts(accounts: seq<string>, sessionEmail: Option<string>): (others: seq<string>)
    ensures forall y :: y in others <==> y in accounts && y != CurrentEmail(sessionEmail)
    ensures Accounts.IsSubsequence(others, accounts)
  {
    Accounts.OtherAccountsInOrder(accounts, CurrentEmail(sessionEmail));
    Accounts.OtherAccounts(accounts, CurrentEmail(sessionEmail))
  }

  /** Without a session every non-empty registered address is offered. */
  lemma NoSessionOffersAll(accounts: seq<string>)
    requires "" !in accounts
    ensures OtherAccounts(accounts, None) == accounts
  {
  }

  /** The search request key: only a non-empty query is sent; `encode` is
      `encodeURIComponent`. */
  function SearchKey(query: string, encode: string -> string): (key: Option<string>)
    ensures key.Some? <==> query != ""
    ensures key.Some? ==> key.value == SearchPath + encode(query)
  {
    if query != "" then Some(SearchPath + encode(query)) else None
  }

  /** The users request key: only sent when there is another account, and it
      carries the other accounts joined by `,`. */
  function UsersKey(others: seq<string>, encode: string -> string): (key: Option<string>)
    ensures key.Some? <==> others != []
    ensures key.Some? ==> StartsWith(key.value, UsersPath)
    ensures key.Some? ==> key.value[|UsersPath|..] == encode(Join(others, ","))
  {
    if |others| > 0 then
      var key := UsersPath + encode(Join(others, ","));
      assert key[..|UsersPath|] == UsersPath;
      Some(key)
    else None
  }

  /** Decoding the users key and splitting it at commas gives the other
      accounts back, in order, when decoding inverts encoding and no address
      holds a comma. */
  lemma UsersKeyRoundTrip(others: seq<string>, encode: string -> string, decode: string -> Option<string>)
    requires forall s :: decode(encode(s)) == Some(s)
    requires others != []
    requires forall i :: 0 <= i < |others| ==> ',' !in others[i]
    ensures var key := UsersKey(others, encode).value;
      && decode(key[|UsersPath|..]).Some?
      && Split(decode(key[|UsersPath|..]).value, ',') == others
  {
    SplitJoin(others, ',');
  }

  /** `handleSignOut`: the root domain, over http when it mentions `localhost`
      and https otherwise. */
  function SignOutUrl(rootEnv: Option<string>): (url: string)
    ensures Includes(OrElse(rootEnv, DefaultRootDomain), "localhost") ==>
      url == "http://" + OrElse(rootEnv, DefaultRootDomain)
    ensures !Includes(OrElse(rootEnv, DefaultRootDomain), "localhost") ==>
      url == "https://" + OrElse(rootEnv, DefaultRootDomain)
  {
    var root := OrElse(rootEnv, DefaultRootDomain);
    var protocol := if Includes(root, "localhost") then "http" else "https";
    protocol + "://" + root
  }

  /** With no root domain configured, signing out goes to the local host. */
  lemma SignOutDefault()
    ensures SignOutUrl(None) == "http://localhost:3000"
  {
    assert OccursAt(DefaultRootDomain, "localhost", 0);
  }

  /** A user record from the users response. */
  datatype UserInfo = UserInfo(email: string, name: string, image: Option<string>)

  /** `new Map(users.map((u) => [u.email, u])).get(email)`: a later record
      for the same address replaces an earlier one, so the last one is found. */
  function LookupUser(users: seq<UserInfo>, email: string): (u: Option<UserInfo>)
    ensures u.None? <==> forall i :: 0 <= i < |users| ==> users[i].email != email
    ensures u.Some? ==> u.value.email == email
    ensures u.Some? ==> exists i :: (0 <= i < |users| && users[i] == u.value
      && forall j :: i < j < |users| ==> users[j].email != email)
    decreases |users|
  {
    if |users| == 0 then None
    else
      var last := |users| - 1;
      if users[last].email == email then Some(users[last])
      else
        var r := LookupUser(users[..last], email);
        assert forall i :: 0 <= i < last ==> users[..last][i] == users[i];
        r
  }

  /** `s.charAt(0)`: the first character, or "" for "". A Dafny character is a
      whole Unicode scalar value, so a first character outside the Basic
      Multilingual Plane is returned whole, where JavaScript returns only its
      high surrogate. */
  function FirstChar(s: string): (c: string)
    ensures |c| <= 1
    ensures s != "" ==> c == [s[0]]
    ensures s == "" ==> c == ""
  {
    if |s| == 0 then "" else s[..1]
  }

  /** The avatar initials of an account: the first letter of the user's name
      when the lookup found a user with a non-empty name, else the first
      character of the address. */
  function Initials(user: Option<UserInfo>, email: string): (initials: string)
    ensures |initials| <= 1
    ensures user.Some? && user.value.name != "" ==> initials == [user.value.name[0]]
    ensures (user.None? || user.value.name == "") && email != "" ==> initials == [email[0]]
    ensures (user.None? || user.value.name == "") && email == "" ==> initials == ""
  {
    var fromName := if user.Some? then FirstChar(user.value.name) else "";
    if fromName != "" then fromName else FirstChar(email)
  }

  /** `handleSwitchAccount(email)`: the query of the `/switch` page, with the
      target account's URL, the current user's image and the target's image,
      each image "" when unknown. */
  function SwitchQuery(email: string, rootEnv: Option<string>, sessionImage: Option<string>,
                       users: seq<UserInfo>): (q: seq<Url.Param>)
    ensures Url.Values(q, "redirect") == [Accounts.AccountUrl(email, rootEnv)]
    ensures Url.Values(q, "fromImage") == [OrElse(sessionImage, "")]
    ensures LookupUser(users, email).None? ==> Url.Values(q, "toImage") == [""]
    ensures LookupUser(users, email).Some? ==>
      Url.Values(q, "toImage") == [OrElse(LookupUser(users, email).value.image, "")]
    ensures |q| == 3
  {
    var target := LookupUser(users, email);
    var toImage := if target.Some? then OrElse(target.value.image, "") else "";
    var q := [Url.Param("redirect", Accounts.AccountUrl(email, rootEnv)),
              Url.Param("fromImage", OrElse(sessionImage, "")),
              Url.Param("toImage", toImage)];
    var last := [Url.Param("toImage", toImage)];
    assert q[1..][1..] == last && last[1..] == [];
    assert Url.Values(last, "toImage") == [toImage];
    assert "redirect"[0] != "toImage"[0] && "fromImage"[0] != "toImage"[0];
    assert Url.Values(q[1..], "toImage") == Url.Values(last, "toImage");
    q
  }

  /** "No emails found" shows for a non-empty query whose search has finished
      with no result. */
  predicate NoResultsNotice(query: string, isLoading: bool, resultCount: nat) {
    query != "" && !isLoading && resultCount == 0
  }

  /** The notice never shows for a query that is not sent. */
  lemma NoticeOnlyForSentQueries(query: string, isLoading: bool, resultCount: nat, encode: string -> string)
    ensures NoResultsNotice(query, isLoading, resultCount) ==> SearchKey(query, encode).Some?
  {
  }
}
