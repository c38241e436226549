/** The account registry of src/hooks/use-accounts.ts: a most-recently-used
    list of e-mail addresses kept in one cookie, and the tenant URL of an
    address. JSON and URI encoding are passed in as functions. */
module Accounts {
  import opened Wrappers
  import opened JsString

  const CookieName := "hosenur_accounts"

  /** `xs.filter((e) => e !== x)`. */
  function Without(xs: seq<string>, x: string): (r: seq<string>)
    ensures |r| <= |xs|
    ensures x !in r
    ensures forall y :: y in r <==> y in xs && y != x
    ensures x !in xs ==> r == xs
  {
    if |xs| == 0 then []
    else if xs[0] == x then Without(xs[1..], x)
    else [xs[0]] + Without(xs[1..], x)
  }

  /** `a` is `b` with some elements left out, the rest in their original order. */
  predicate IsSubsequence(a: seq<string>, b: seq<string>)
    decreases |b|
  {
    if |a| == 0 then true
    else if |b| == 0 then false
    else (a[0] == b[0] && IsSubsequence(a[1..], b[1..])) || IsSubsequence(a, b[1..])
  }

  /** Filtering keeps the order of what it keeps, and keeps every other copy. */
  lemma {:induction false} WithoutKeepsOrder(xs: seq<string>, x: string)
    ensures IsSubsequence(Without(xs, x), xs)
    ensures forall y :: y != x ==> multiset(Without(xs, x))[y] == multiset(xs)[y]
  {
    if |xs| > 0 {
      WithoutKeepsOrder(xs[1..], x);
      assert xs == [xs[0]] + xs[1..];
      var r := Without(xs, x);
      if xs[0] != x {
        assert r[1..] == Without(xs[1..], x);
      }
    }
  }

  predicate NoDuplicates(xs: seq<string>) {
    forall i, j :: 0 <= i < j < |xs| ==> xs[i] != xs[j]
  }

  /** Removing a value from a duplicate-free list drops exactly one element
      when the value is there, none otherwise, and keeps it duplicate-free. */
  lemma {:induction false} WithoutUnique(xs: seq<string>, x: string)
    requires NoDuplicates(xs)
    ensures NoDuplicates(Without(xs, x))
    ensures |Without(xs, x)| == if x in xs then |xs| - 1 else |xs|
  {
    if |xs| > 0 {
      assert NoDuplicates(xs[1..]) by {
        forall i, j | 0 <= i < j < |xs[1..]| ensures xs[1..][i] != xs[1..][j] {
          assert xs[1..][i] == xs[i + 1] && xs[1..][j] == xs[j + 1];
        }
      }
      WithoutUnique(xs[1..], x);
      if xs[0] == x {
        assert x !in xs[1..] by {
          forall k | 0 <= k < |xs[1..]| ensures xs[1..][k] != x {
            assert xs[1..][k] == xs[k + 1];
          }
        }
      } else {
        assert x in xs <==> x in xs[1..] by { assert xs == [xs[0]] + xs[1..]; }
        var rest := Without(xs[1..], x);
        assert xs[0] !in rest by {
          forall k | 0 <= k < |xs[1..]| ensures xs[1..][k] != xs[0] {
            assert xs[1..][k] == xs[k + 1];
          }
        }
      }
    }
  }

  /** `addAccount(email)`: the address goes to the front, every older copy of
      it is dropped, the others keep their order. */
  function Add(stored: seq<string>, email: string): (r: seq<string>)
    ensures |r| >= 1 && r[0] == email
    ensures email !in r[1..]
    ensures r[1..] == Without(stored, email)
  {
    [email] + Without(stored, email)
  }

  /** Adding the same address twice is the same as adding it once. */
  lemma AddIdempotent(stored: seq<string>, email: string)
    ensures Add(Add(stored, email), email) == Add(stored, email)
  {
    var once := Add(stored, email);
    assert Without(once, email) == Without(once[1..], email);
  }

  /** A duplicate-free registry stays duplicate-free, and grows by one exactly
      when the address was new. */
  lemma AddKeepsUnique(stored: seq<string>, email: string)
    requires NoDuplicates(stored)
    ensures NoDuplicates(Add(stored, email))
    ensures |Add(stored, email)| == if email in stored then |stored| else |stored| + 1
  {
    WithoutUnique(stored, email);
    var r := Add(stored, email);
    forall i, j | 0 <= i < j < |r| ensures r[i] != r[j] {
      if i == 0 {
        assert r[j] == r[1..][j - 1];
      } else {
        assert r[i] == r[1..][i - 1] && r[j] == r[1..][j - 1];
      }
    }
  }

  /** Adding keeps every other address and loses none. */
  lemma AddKeepsOthers(stored: seq<string>, email: string)
    ensures forall y :: y in Add(stored, email) <==> y in stored || y == email
    ensures IsSubsequence(Add(stored, email)[1..], stored)
  {
    WithoutKeepsOrder(stored, email);
    var r := Add(stored, email);
    forall y ensures y in r <==> y in stored || y == email {
      assert r == [email] + r[1..];
    }
  }

  /** `removeAccount(email)`: no copy is left, the rest keep their order. */
  function Remove(stored: seq<string>, email: string): (r: seq<string>)
    ensures email !in r
    ensures forall y :: y in r <==> y in stored && y != email
  {
    Without(stored, email)
  }

  /** Removing twice is removing once, and removing what was just added
      restores the registry minus that address. */
  lemma RemoveIdempotent(stored: seq<string>, email: string)
    ensures Remove(Remove(stored, email), email) == Remove(stored, email)
    ensures Remove(Add(stored, email), email) == Remove(stored, email)
  {
    assert Without(Add(stored, email), email) == Without(Without(stored, email), email);
  }

  /** `getOtherAccounts(current)`: the in-memory list without the current address. */
  function OtherAccounts(accounts: seq<string>, current: string): (r: seq<string>)
    ensures current !in r
    ensures forall y :: y in r <==> y in accounts && y != current
  {
    Without(accounts, current)
  }

  /** The other accounts are an order-preserving selection of the registry. */
  lemma OtherAccountsInOrder(accounts: seq<string>, current: string)
    ensures IsSubsequence(OtherAccounts(accounts, current), accounts)
    ensures forall y :: y != current ==>
      multiset(OtherAccounts(accounts, current))[y] == multiset(accounts)[y]
  {
    WithoutKeepsOrder(accounts, current);
  }

  // ---------------------------------------------------------------------------
  // Reading and writing the cookie.

  /** A match of the regular expression `(^| )<name>=([^;]+)` whose `<name>`
      begins at `p`: at the start or after a space, followed by `=` and at
      least one character other than `;`. */
  predicate PairAt(cookie: string, name: string, p: int) {
    && 0 <= p
    && p + |name| + 1 < |cookie|
    && (p == 0 || cookie[p - 1] == ' ')
    && cookie[p..p + |name| + 1] == name + "="
    && cookie[p + |name| + 1] != ';'
  }

  /** The leftmost match at or after `from`. */
  function FindPair(cookie: string, name: string, from: nat): (p: Option<nat>)
    ensures p.Some? ==> from <= p.value && PairAt(cookie, name, p.value)
    ensures p.Some? ==> forall q :: from <= q < p.value ==> !PairAt(cookie, name, q)
    ensures p.None? ==> forall q :: from <= q ==> !PairAt(cookie, name, q)
    decreases |cookie| - from
  {
    if from + |name| + 1 >= |cookie| then None
    else if PairAt(cookie, name, from) then Some(from)
    else FindPair(cookie, name, from + 1)
  }

  /** `getCookie(name)` before URI decoding: the value of the leftmost match,
      which runs up to the next `;` or the end. */
  function CookieValue(cookie: string, name: string): (v: Option<string>)
    ensures v.Some? ==> v.value != "" && ';' !in v.value
    ensures v.None? <==> forall q :: !PairAt(cookie, name, q)
  {
    match FindPair(cookie, name, 0)
    case None => None
    case Some(p) => Some(Before(cookie[p + |name| + 1..], ';'))
  }

  /** `getStoredAccounts()`. `cookie` is `document.cookie` (absent when there
      is no document); `decode` is `decodeURIComponent` (None where it throws);
      `parse` is `JSON.parse` (None where it throws). Every failure loads as
      the empty registry; nothing escapes. */
  function StoredAccounts(cookie: Option<string>, decode: string -> Option<string>,
                          parse: string -> Option<seq<string>>): (accounts: seq<string>)
    ensures cookie.None? ==> accounts == []
    ensures cookie.Some? && CookieValue(cookie.value, CookieName).None? ==> accounts == []
    ensures accounts != [] ==>
      var raw := CookieValue(cookie.value, CookieName).value;
      && decode(raw).Some? && decode(raw).value != ""
      && parse(decode(raw).value) == Some(accounts)
  {
    if cookie.None? then []
    else
      match CookieValue(cookie.value, CookieName)
      case None => []
      case Some(raw) =>
        match decode(raw)
        case None => []
        case Some(text) =>
          if text == "" then []
          else parse(text).GetOr([])
  }

  /** The cookie value `saveAccounts` writes: URI-encoded JSON. */
  function SavedValue(accounts: seq<string>, stringify: seq<string> -> string,
                      encode: string -> string): string
  {
    encode(stringify(accounts))
  }

  /** The search stops at the first match: a match at `p` with none between
      `from` and `p` is what the search returns. */
  lemma {:induction false} FindPairLeftmost(cookie: string, name: string, from: nat, p: nat)
    requires from <= p && PairAt(cookie, name, p)
    requires forall q :: from <= q < p ==> !PairAt(cookie, name, q)
    ensures FindPair(cookie, name, from) == Some(p)
    decreases p - from
  {
    if from < p {
      assert !PairAt(cookie, name, from);
      FindPairLeftmost(cookie, name, from + 1, p);
    }
  }

  /** A value-carrying pair `name=value` is found when nothing before it matches. */
  lemma {:induction false} FindsPair(name: string, prefix: string, value: string, suffix: string)
    requires prefix == "" || prefix[|prefix| - 1] == ' '
    requires value != "" && ';' !in value
    requires suffix == "" || suffix[0] == ';'
    requires forall q :: 0 <= q < |prefix| ==> !PairAt(prefix + name + "=" + value + suffix, name, q)
    ensures CookieValue(prefix + name + "=" + value + suffix, name) == Some(value)
  {
    PairFoundAt(name, prefix, value, suffix);
    ValueAfterPair(name, prefix, value, suffix);
  }

  /** The search stops at the pair that follows `prefix`. */
  lemma PairFoundAt(name: string, prefix: string, value: string, suffix: string)
    requires prefix == "" || prefix[|prefix| - 1] == ' '
    requires value != "" && ';' !in value
    requires forall q :: 0 <= q < |prefix| ==> !PairAt(prefix + name + "=" + value + suffix, name, q)
    ensures FindPair(prefix + name + "=" + value + suffix, name, 0) == Some(|prefix|)
  {
    var cookie := prefix + name + "=" + value + suffix;
    var p := |prefix|;
    var start := p + |name| + 1;
    assert cookie[p..start] == name + "=";
    assert cookie[start] == value[0];
    assert p == 0 || cookie[p - 1] == prefix[p - 1];
    assert PairAt(cookie, name, p);
    FindPairLeftmost(cookie, name, 0, p);
  }

  /** After `name=`, the value runs up to the next `;` or the end. */
  lemma ValueAfterPair(name: string, prefix: string, value: string, suffix: string)
    requires ';' !in value
    requires suffix == "" || suffix[0] == ';'
    ensures var cookie := prefix + name + "=" + value + suffix;
      Before(cookie[|prefix| + |name| + 1..], ';') == value
  {
    var cookie := prefix + name + "=" + value + suffix;
    var rest := cookie[|prefix| + |name| + 1..];
    assert rest == value + suffix;
    if suffix == "" {
      assert rest == value;
      BeforeAbsent(value, ';');
    } else {
      assert rest == value + [';'] + suffix[1..];
      BeforeAppend(value, ';', suffix[1..]);
    }
  }

  /** Save-then-load gives the list back, provided decoding inverts encoding,
      parsing inverts serialising, encoded text never holds `;`, a list never
      serialises to "" and non-empty text never encodes to "", and the cookie
      jar shows the pair with no earlier match before it. */
  lemma SaveThenLoad(accounts: seq<string>, prefix: string, suffix: string,
                     stringify: seq<string> -> string, parse: string -> Option<seq<string>>,
                     encode: string -> string, decode: string -> Option<string>)
    requires forall s :: decode(encode(s)) == Some(s)
    requires forall a :: parse(stringify(a)) == Some(a)
    requires forall s :: ';' !in encode(s)
    requires forall a :: stringify(a) != ""
    requires forall s :: s != "" ==> encode(s) != ""
    requires prefix == "" || prefix[|prefix| - 1] == ' '
    requires suffix == "" || suffix[0] == ';'
    requires forall q :: 0 <= q < |prefix| ==>
      !PairAt(prefix + CookieName + "=" + SavedValue(accounts, stringify, encode) + suffix, CookieName, q)
    ensures StoredAccounts(Some(prefix + CookieName + "=" + SavedValue(accounts, stringify, encode) + suffix),
                           decode, parse) == accounts
  {
    var value := SavedValue(accounts, stringify, encode);
    assert value != "";
    FindsPair(CookieName, prefix, value, suffix);
  }

  /** A registry that is absent, has no value, or does not parse loads as []. */
  lemma MissingOrCorruptLoadsEmpty(cookie: string, decode: string -> Option<string>,
                                   parse: string -> Option<seq<string>>)
    ensures StoredAccounts(None, decode, parse) == []
    ensures CookieValue(cookie, CookieName).None? ==> StoredAccounts(Some(cookie), decode, parse) == []
    ensures CookieValue(cookie, CookieName).Some? && decode(CookieValue(cookie, CookieName).value).None?
      ==> StoredAccounts(Some(cookie), decode, parse) == []
    ensures (forall s :: parse(s).None?) ==> StoredAccounts(Some(cookie), decode, parse) == []
  {
  }

  // ---------------------------------------------------------------------------
  // From an address to its mailbox URL.

  /** `getSubdomainFromEmail`: the text before the first `@`, or all of it. */
  function SubdomainFromEmail(email: string): (sub: string)
    ensures |sub| <= |email| && sub == email[..|sub|] && '@' !in sub
    ensures |sub| == |email| || email[|sub|] == '@'
  {
    Before(email, '@')
  }

  /** `getAccountUrl`: `https://<local part>.<root domain>`; an unset root
      domain renders as "undefined". */
  function AccountUrl(email: string, rootEnv: Option<string>): (url: string)
    ensures StartsWith(url, "https://" + SubdomainFromEmail(email) + ".")
    ensures url[|"https://" + SubdomainFromEmail(email) + "."|..] == Interpolate(rootEnv)
  {
    var url := "https://" + SubdomainFromEmail(email) + "." + Interpolate(rootEnv);
    assert url[..|"https://" + SubdomainFromEmail(email) + "."|] == "https://" + SubdomainFromEmail(email) + ".";
    url
  }

  /** The URL of `<local>@<anything>` is the `<local>` sub-domain of the root. */
  lemma AccountUrlOfAddress(local: string, domain: string, root: string)
    requires '@' !in local
    ensures AccountUrl(local + "@" + domain, Some(root)) == "https://" + local + "." + root
  {
    assert local + "@" + domain == local + ['@'] + domain;
    BeforeAppend(local, '@', domain);
  }
}
