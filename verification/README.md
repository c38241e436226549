# A Dafny model of the hosenur.email webmail core

The webmail gives every user a sub-domain of one root domain, so
`alice.hosenur.email` is Alice's mailbox. This project models the pure
decisions the system makes on its way there. Each decision is a total function
on strings and sequences, and each carries a contract.

- **Host routing on the server** (`src/middleware.ts`, `src/proxy.ts`).
  - A request for the bare root domain gets a 301 Moved Permanently (section
    15.4.2 of RFC 9110) to its `www.` alias.
  - Any other host's first dot-label is a tenant. A tenant request is sent to
    `/auth` with the tenant in the `subdomain` query parameter. The parameter
    is written with `URLSearchParams.set` (section 6.2 of the WHATWG URL
    Standard).
  - The framework's route filter decides which paths reach the router at all.
- **The sign-in and registration pages** (`src/pages/auth/login.tsx`,
  `src/pages/auth/register.tsx`).
  - Sign-in reads the tenant off the browser's host name and builds the
    sign-in address.
  - Both pages check the form in a fixed order and build their error texts and
    the address to go to next.
- **The account registry** (`src/hooks/use-accounts.ts`). It is a
  most-recently-used list of addresses kept in one cookie. The model covers
  adding, removing and projecting, reading the cookie back, and the tenant URL
  of an address.
- **The compose drawer** (`src/components/compose-email.tsx`). The model
  covers the To and Cc parsing, the attachment list, validation and the
  signature prefill.
- **The lists** (`src/components/cmd.tsx`, `src/pages/sent.tsx`,
  `src/components/email-sidebar.tsx`).
  - The `Name <address>` display-name extractor is written out identically in
    all three files. It is modelled once (`DisplayName.Extract`), with the
    regular expression `^(.+?)\s*<.+>$` spelled out.
  - The model also covers each view's states and placeholders.
  - From the command menu it covers the request keys, the sign-out URL and the
    switch-account query.

Every JavaScript string primitive the code relies on is written as an
explicit `seq<char>` function in `JsString`:

- `split(c)[0]`, `split`, `join`, `includes`, `startsWith` and `endsWith`;
- first-occurrence `replace`;
- `trim`, with the ECMAScript whitespace set;
- `toLowerCase`;
- the logical-or default on a possibly missing string;
- `${x}` on a possibly undefined value.

Environment values are parameters of type `Option<string>`. These include
`NEXT_PUBLIC_ROOT_DOMAIN`, `window.location.hostname`, `document.cookie` and
the session's fields. JSON and URI encoding and base64 are function
parameters.

The model follows the code as written:

- host matching is exact and case-sensitive;
- there is no session check on the server;
- there is no path rewrite;
- the router only passes or redirects.

Modules, one per file: `Wrappers`, `JsString`, `Url`, `Proxy`, `Middleware`,
`AuthClient`, `Login`, `Register`, `Accounts`, `Compose`, `DisplayName`, `Sent`,
`Sidebar`, `Cmd`, and `Flows` for properties that span pages.

## Model

| member | source | states |
|---|---|---|
| JsString.OrElse | src/middleware.ts:4 | the logical-or default on a string: the fallback when the value is missing or empty, the value otherwise |
| JsString.Interpolate | src/hooks/use-accounts.ts:73 | a template slot holding an undefined value renders as `undefined` |
| JsString.Before | src/middleware.ts:8 | `split(c)[0]` is the longest prefix free of `c`; it is followed by `c` or by the end of the text |
| JsString.IndexOf | src/pages/auth/login.tsx:31 | the first position at or after `from` where the pattern occurs; none when it never occurs there |
| JsString.ReplaceFirst | src/pages/auth/login.tsx:31 | `replace` with a string pattern removes only the first occurrence and keeps the text before and after it |
| JsString.Split | src/components/compose-email.tsx:93-94 | `split(c)` has at least one piece; the first piece is `split(c)[0]`; no piece contains `c` |
| JsString.JoinSplit | src/components/compose-email.tsx:93-94 | joining the pieces of `split(c)` with `c` gives the input back |
| JsString.SplitJoin | src/components/compose-email.tsx:93-94 | splitting the join of `c`-free pieces gives the same pieces back |
| JsString.Trim | src/components/compose-email.tsx:95 | the result has no whitespace at either end |
| JsString.TrimSpec | src/components/compose-email.tsx:95 | the result is the input's text after its leading whitespace, with only whitespace after it |
| JsString.TrimEmptyIff | src/components/compose-email.tsx:138 | a string trims to "" exactly when it is all whitespace |
| JsString.ToLower | src/pages/auth/register.tsx:88 | lower-casing keeps the length and folds each ASCII capital to its small letter |
| JsString.ToLowerIdempotent | src/pages/auth/register.tsx:88 | no capital is left after lower-casing, and lower-casing again changes nothing |
| Url.SetSpec | src/proxy.ts:23 | after `set(name, value)` there is exactly one `name` entry, holding `value`, at the position of the first old one (or at the end); all other entries are unchanged and in order |
| Url.SetIdempotent | src/proxy.ts:23 | setting the same parameter twice is the same as setting it once |
| Url.SetSingle | src/proxy.ts:23 | on a query already holding exactly `name=value`, `set` changes nothing |
| Proxy.TenantLabel | src/proxy.ts:5-9 | the label is the Host text before the first `.`; a port is not stripped |
| Proxy.Route | src/proxy.ts:4-25 | passes exactly when the label is empty, `www` or `localhost`, or the path is exactly `/auth`; every other request is redirected to `/auth` with `subdomain` set to the label, with status 307 |
| Proxy.RedirectTarget | src/proxy.ts:21-24 | a redirect keeps host, scheme and fragment, goes to `/auth`, and its query has exactly one `subdomain` entry equal to the label, with every other parameter untouched |
| Proxy.OnlyExactAuthPathIsExempt | src/proxy.ts:17-19 | for a tenant host only the exact path `/auth` passes; `/auth/login` is redirected |
| Proxy.PortIsPartOfLabel | src/proxy.ts:9-14 | `localhost:<port>` is a tenant label and is redirected, while bare `localhost` passes |
| Proxy.TenantExample | src/proxy.ts:21-24 | `bob.localhost:3000` on `/inbox` goes to `/auth?subdomain=bob` with 307 |
| Proxy.NonTenantExample | src/proxy.ts:5-14 | a missing Host header and a `www.` host both pass |
| Proxy.ExcludedByPrefix | src/proxy.ts:30 | a pathname starting `/api`, `/_next/static` or `/_next/image` never reaches the router |
| Proxy.ExcludesFavicon | src/proxy.ts:30 | a pathname starting `/favicon`, any one character, then `ico` never reaches the router |
| Proxy.ExcludesSvg | src/proxy.ts:30 | a pathname ending in `.svg` never reaches the router |
| Proxy.IncludesPlain | src/proxy.ts:30 | a single-line pathname without `.` whose first segment does not start with `_`, `f` or `ap` reaches the router |
| Proxy.AuthPageIsRouted | src/proxy.ts:30 | the sign-in page `/auth` reaches the router |
| Middleware.HostName | src/middleware.ts:8-9 | the host name is the text before the first `:` |
| Middleware.WwwTarget | src/middleware.ts:13-14 | the redirect URL's host is `www.` plus the Host header with its port; scheme, path, query and fragment are the request's |
| Middleware.Handle | src/middleware.ts:6-20 | equal port-free host names that do not start with `www.` give a 301 to the `www.` URL; every other request gets exactly the router's decision |
| Middleware.PermanentIffApex | src/middleware.ts:12-15 | a 301 is issued exactly when the request is for the bare root domain |
| Middleware.ApexRedirectThenPass | src/middleware.ts:12-19 | following the apex redirect reaches a `www.` host that both the middleware and the router let through, so there is no loop |
| Middleware.MissingHost | src/middleware.ts:7-12 | a missing Host header gets the apex redirect only when the root domain's host part is empty |
| Middleware.TenantHostReachesRouter | src/middleware.ts:12-19 | `<t>.<root host><port>` is never the apex and is redirected to `/auth?subdomain=<t>` |
| Middleware.DistinctNamesAreNotApex | src/middleware.ts:8-12 | two different port-free host names are never apex and root; the comparison is exact, with no case folding |
| Middleware.ExampleLabel | src/proxy.ts:9-14 | `Example.com` has the tenant label `Example`, which is not exempt |
| Middleware.CaseSensitive | src/middleware.ts:12-19 | an upper-case spelling of the root domain is routed as tenant `Example` to `/auth` |
| Middleware.ApexRedirectChangesOnlyHost | src/middleware.ts:13-15 | the apex redirect has status 301 and differs from the request URL only in its host |
| Middleware.HostNameOfPorted | src/middleware.ts:8-9 | a host name followed by a port, or by nothing, has that host name |
| Middleware.PortedHostIsApex | src/middleware.ts:8-12 | ports play no part: a non-`www.` host name is the apex of a root with the same name, whatever port either carries |
| Middleware.DefaultHostIsApex | src/middleware.ts:4-12 | with no root domain configured the root is `localhost:3000`, and `localhost` on any port is the apex |
| Middleware.Dispatch | src/middleware.ts:22 | paths the route filter rejects pass untouched; the others get the middleware's decision |
| Middleware.ApiRoutesPass | src/proxy.ts:30 | any path starting `/api` passes, whatever the host |
| AuthClient.ErrorText | src/pages/auth/login.tsx:71-78 | a failed call shows the service's message when it has one, else the page's fallback; a thrown call shows "An unexpected error occurred" |
| Login.RootSuffix | src/pages/auth/login.tsx:18-30 | the suffix searched for is `.` followed by the root domain without its port |
| Login.RootSuffixDefault | src/pages/auth/login.tsx:18-30 | a missing or empty root domain gives the suffix `.localhost` |
| Login.RootSuffixIgnoresPort | src/pages/auth/login.tsx:18-30 | a configured root `<name><port>` gives the suffix `.<name>` |
| Login.Subdomain | src/pages/auth/login.tsx:14-35 | with no window the result is "". A host containing `.localhost` gives its first label. Another `localhost` or `127.0.0.1` host gives "". A production host ending in the suffix loses the first occurrence of the suffix. Any other host gives "" |
| Login.DotLocalhostIsDevHost | src/pages/auth/login.tsx:21-23 | a host containing `.localhost` always takes the development branch |
| Login.SuffixStripWhenUnique | src/pages/auth/login.tsx:29-32 | when the suffix occurs only at the end, the first-occurrence removal is suffix stripping |
| Login.TenantHostYieldsLabel | src/pages/auth/login.tsx:29-32 | a production host `<t>.<root>` with a dot-free label yields `t` |
| Login.ReplaceIsNotSuffixStrip | src/pages/auth/login.tsx:30-31 | with root `b.c` the host `a.b.cd.b.c` yields `ad.b.c`, where suffix stripping would give `a.b.cd` |
| Login.Email | src/pages/auth/login.tsx:41-46 | the address is `<sub>@<root domain>`, port included, and "" exactly when there is no sub-domain |
| Login.EmailLocalPart | src/pages/auth/login.tsx:46 | the text before `@` of a derived address is its sub-domain |
| Login.PasswordErrors | src/pages/auth/login.tsx:37-39 | the only error is "Password is required", raised exactly for an empty password |
| Login.Submit | src/pages/auth/login.tsx:57-69 | an empty address shows "Email is missing (not on a subdomain)" and never signs in; otherwise it signs in with the address and password |
| Login.EnabledButtonSignsIn | src/pages/auth/login.tsx:136 | an enabled button always leads to a sign-in call, never to the missing-address error |
| Login.AfterSignInStep | src/pages/auth/login.tsx:71-78 | success navigates to `/`; a failure shows the service's message or "Sign in failed" |
| Register.OnUsernameInput | src/pages/auth/register.tsx:88 | every edit of the username keeps its length, turns each ASCII capital into its small letter and keeps every other character |
| Register.UsernameInputIdempotent | src/pages/auth/register.tsx:88 | editing an already lower-case name changes nothing |
| Register.Submit | src/pages/auth/register.tsx:21-49 | the username is checked first, then that the passwords match, then the 8-character minimum; only a form passing all three signs up, as `<username>@hosenur.email` |
| Register.MismatchBeforeLength | src/pages/auth/register.tsx:30-38 | two different short passwords get the mismatch error, not the length error |
| Register.EnabledButtonHasUsername | src/pages/auth/register.tsx:132-134 | an enabled button never leads to "Username is required", and every sign-up it allows has a name |
| Register.RedirectUrl | src/pages/auth/register.tsx:54-59 | `http://<u>.localhost:3000` when the root domain mentions `localhost`, else `https://<u>.<root>` |
| Register.DefaultRedirectIsLocal | src/pages/auth/register.tsx:11-59 | with no root domain configured the redirect is `http://<u>.localhost:3000` |
| Register.AfterSignUpStep | src/pages/auth/register.tsx:51-62 | success navigates to the redirect URL; a failure shows the service's message or "Registration failed" |
| Accounts.Without | src/hooks/use-accounts.ts:43 | filtering leaves no copy of the value and keeps exactly the other elements |
| Accounts.WithoutKeepsOrder | src/hooks/use-accounts.ts:43 | filtering keeps an ordered subsequence with every other element's count unchanged |
| Accounts.WithoutUnique | src/hooks/use-accounts.ts:43 | on a duplicate-free list, filtering drops one element when the value is present and none otherwise |
| Accounts.Add | src/hooks/use-accounts.ts:41-47 | the address goes to the front, followed by the stored list without any copy of it |
| Accounts.AddIdempotent | src/hooks/use-accounts.ts:42-44 | adding an address twice gives the same list as adding it once |
| Accounts.AddKeepsUnique | src/hooks/use-accounts.ts:43-44 | a duplicate-free registry stays duplicate-free and grows by one exactly when the address was new |
| Accounts.AddKeepsOthers | src/hooks/use-accounts.ts:43-44 | adding loses no other address and keeps their order |
| Accounts.Remove | src/hooks/use-accounts.ts:49-54 | removal leaves no copy of the address and keeps every other one |
| Accounts.RemoveIdempotent | src/hooks/use-accounts.ts:49-54 | removing twice is removing once, and removing after adding is plain removal |
| Accounts.OtherAccounts | src/hooks/use-accounts.ts:56-61 | the projection never contains the current address and keeps all others |
| Accounts.OtherAccountsInOrder | src/hooks/use-accounts.ts:56-61 | the projection is an order-preserving subsequence of the registry |
| Accounts.FindPair | src/hooks/use-accounts.ts:9 | the cookie regex finds the leftmost `name=` that starts the text or follows a space and is followed by a non-`;` character |
| Accounts.FindPairLeftmost | src/hooks/use-accounts.ts:9 | a match with no earlier match before it is the one found |
| Accounts.CookieValue | src/hooks/use-accounts.ts:7-11 | the value is non-empty and `;`-free, and it is missing exactly when the pattern never matches |
| Accounts.FindsPair | src/hooks/use-accounts.ts:9-10 | a `name=value` pair with nothing matching before it yields `value` |
| Accounts.StoredAccounts | src/hooks/use-accounts.ts:21-28 | no document, no cookie value, an undecodable value, empty text or unparseable JSON all load as []; a non-empty result is the parsed value |
| Accounts.SaveThenLoad | src/hooks/use-accounts.ts:7-32 | loading what was saved gives the list back, when decoding inverts encoding and parsing inverts serialising |
| Accounts.MissingOrCorruptLoadsEmpty | src/hooks/use-accounts.ts:21-28 | a missing cookie, a missing pair, a decode failure or a parser that always fails each load as [] |
| Accounts.SubdomainFromEmail | src/hooks/use-accounts.ts:66-69 | the text before the first `@`, or all of it |
| Accounts.AccountUrl | src/hooks/use-accounts.ts:71-74 | `https://<local part>.` followed by the root domain as interpolated (`undefined` when unset) |
| Accounts.AccountUrlOfAddress | src/hooks/use-accounts.ts:66-74 | the URL of `<local>@<any domain>` is `https://<local>.<root>` |
| Compose.TrimAll | src/components/compose-email.tsx:95-96 | every kept piece is non-empty and trimmed, and there are no more pieces than before |
| Compose.TrimAllConcat | src/components/compose-email.tsx:95-96 | trimming and dropping blanks distributes over concatenation, so order is kept |
| Compose.TrimKeepsAbsent | src/components/compose-email.tsx:95 | trimming never introduces a character |
| Compose.Recipients | src/components/compose-email.tsx:93-96 | each parsed address is non-empty, trimmed and comma-free |
| Compose.RecipientsCommaFree | src/components/compose-email.tsx:93-96 | trimmed comma-free pieces stay comma-free |
| Compose.SplitConcat | src/components/compose-email.tsx:94 | splitting distributes over an occurrence of the separator |
| Compose.RecipientsOfOne | src/components/compose-email.tsx:93-96 | a comma-free field is one trimmed address, or none when blank |
| Compose.RecipientsOfAddress | src/components/compose-email.tsx:93-96 | a clean address parses as itself |
| Compose.RecipientsConcat | src/components/compose-email.tsx:93-96 | the list for `a,b` is the list for `a` followed by the list for `b` |
| Compose.RecipientsOfJoin | src/components/compose-email.tsx:93-96 | clean addresses joined by commas parse back to the same list, in order |
| Compose.CcList | src/components/compose-email.tsx:97-102 | an empty Cc gives []; the guard agrees with the To parser on every input |
| Compose.ToAttachment | src/components/compose-email.tsx:68-72 | an attachment keeps the file name and the encoded bytes; its content type is the file's, or `application/octet-stream` when the file has none |
| Compose.DefaultTypeIff | src/components/compose-email.tsx:71 | the content type is `application/octet-stream` exactly when the file reported no type or that very type |
| Compose.SelectFiles | src/components/compose-email.tsx:56-75 | no file list changes nothing; otherwise the new attachments follow the old ones, one per file, in file order |
| Compose.RemoveAttachment | src/components/compose-email.tsx:77-79 | an in-range index removes exactly that element, and the others keep their order; an out-of-range index changes nothing |
| Compose.Validate | src/components/compose-email.tsx:33-38 | an error is reported for each empty field among To, Subject and Body, and only for those |
| Compose.CcUnconstrained | src/components/compose-email.tsx:35 | the Cc field never affects validation |
| Compose.BodyOnOpen | src/components/compose-email.tsx:137-143 | on opening, the body is the separator plus the signature when the signature is present and does not trim to "", else ""; while closed it is unchanged |
| Compose.OpenedBodyValidation | src/components/compose-email.tsx:137-143 | on opening, the signature is shown exactly when it has a non-whitespace character, so the body error shows exactly when the signature is missing or blank |
| DisplayName.SubjectLabel | src/pages/sent.tsx:112 | a missing or empty subject shows "No subject"; any other subject shows itself |
| DisplayName.TailOkMatches | src/components/cmd.tsx:50 | the direct tail test implies the `\s*<.+>$` match |
| DisplayName.TailMatchesOk | src/components/cmd.tsx:50 | any `\s*<.+>$` match starts its `<` right after the leading whitespace |
| DisplayName.TailOkIff | src/components/cmd.tsx:50 | the direct tail test and the regular expression's tail agree |
| DisplayName.NoAngleNoTail | src/components/cmd.tsx:50 | text without `<` never matches the tail |
| DisplayName.CaptureFromSpec | src/components/cmd.tsx:50 | the search finds the first group end from `k` on, and finds none when no end matches |
| DisplayName.FirstMatchUnique | src/components/cmd.tsx:50 | the shortest match is unique |
| DisplayName.CaptureSpec | src/components/cmd.tsx:50 | the lazy group ends at the first position where the text matches, and has no end when nothing matches |
| DisplayName.ExtractSpec | src/components/cmd.tsx:49-55 | the trimmed shortest capture when the text matches, else the text before the first `@` |
| DisplayName.ExtractDisplayName | src/components/cmd.tsx:50-53 | `Name <address>`, with any whitespace before `<`, shows `Name` |
| DisplayName.NoEarlyTail | src/components/cmd.tsx:50 | no tail can start inside a trimmed, `<`-free name |
| DisplayName.ExtractPlainAddress | src/components/cmd.tsx:54 | an address without `<` shows its local part |
| DisplayName.ExtractBareBrackets | src/components/cmd.tsx:54 | `<address>` with no name matches nothing and shows the text before `@`, bracket included |
| DisplayName.BareBracketsShowLocalPart | src/components/cmd.tsx:49-55 | a bare `<local@domain>` shows `<local`, bracket kept and domain dropped |
| Sent.Names | src/pages/sent.tsx:104 | one display name per recipient, in order |
| Sent.RecipientLine | src/pages/sent.tsx:104 | `To: ` followed by the display names joined with `, ` |
| Sent.RecipientLineGrows | src/pages/sent.tsx:104 | one recipient shows only its name; each further recipient appends `, ` and its name |
| Sent.RowOf | src/pages/sent.tsx:100-113 | the unread dot shows exactly when the message was not opened; the subject is never empty, and a missing or empty subject shows "No subject" |
| Sent.Rows | src/pages/sent.tsx:92-115 | one row per sent message, in order |
| Sent.ViewOf | src/pages/sent.tsx:80-117 | loading wins over an error, and an error over data; "No sent emails yet" shows exactly for a loaded empty list |
| Sent.ListedRowsMatch | src/pages/sent.tsx:88-115 | a loaded non-empty list shows one row per message |
| Sidebar.ItemOf | src/components/email-sidebar.tsx:91-116 | an item is current exactly when its id is the selected id; it shows the sender's display name, the subject label and the summary or "No preview available" |
| Sidebar.Items | src/components/email-sidebar.tsx:91-119 | one item per message, in order |
| Sidebar.PanelOf | src/components/email-sidebar.tsx:76-91 | the loader and error notices follow their flags independently; "No emails yet" shows exactly for a loaded empty list |
| Sidebar.AtMostOneCurrent | src/components/email-sidebar.tsx:95 | with distinct ids at most one item is current, and it is the selected message |
| Sidebar.NoEmailsMeansNoItems | src/components/email-sidebar.tsx:86-91 | the empty notice and list items never show together |
| Cmd.CurrentEmail | src/components/cmd.tsx:85 | the session's address, or "" without a session |
| Cmd.OtherAccounts | src/components/cmd.tsx:85-86 | the registry without the current address, in order |
| Cmd.NoSessionOffersAll | src/components/cmd.tsx:85-86 | without a session, every non-empty registered address is offered |
| Cmd.SearchKey | src/components/cmd.tsx:88-91 | a search request is made exactly for a non-empty query |
| Cmd.UsersKey | src/components/cmd.tsx:93-98 | the users request is made exactly when there is another account, carrying their encoded comma-joined list |
| Cmd.UsersKeyRoundTrip | src/components/cmd.tsx:95 | decoding and splitting the users parameter gives the other accounts back, in order |
| Cmd.SignOutUrl | src/components/cmd.tsx:108-113 | `http://<root>` when the root domain mentions `localhost`, else `https://<root>` |
| Cmd.SignOutDefault | src/components/cmd.tsx:110-112 | with no root domain configured, sign-out goes to `http://localhost:3000` |
| Cmd.LookupUser | src/components/cmd.tsx:100-116 | the map lookup finds the last user record with the address, and nothing when there is none |
| Cmd.FirstChar | src/components/cmd.tsx:190 | `charAt(0)` is the first character, or "" for ""; a character outside the Basic Multilingual Plane is returned whole, not as its high surrogate |
| Cmd.Initials | src/components/cmd.tsx:190 | the initial is the name's first letter when the user has a non-empty name, else the address's first character |
| Cmd.SwitchQuery | src/components/cmd.tsx:115-127 | the switch query has exactly one `redirect` (the account URL), one `fromImage` and one `toImage`, each image "" when unknown |
| Cmd.NoticeOnlyForSentQueries | src/components/cmd.tsx:164 | "No emails found" only shows for a query that was sent |
| Flows.RegisteredAddressSignsIn | src/pages/auth/register.tsx:42 | the registered address `<u>@hosenur.email` equals the sign-in page's address exactly when the root domain is `hosenur.email` |
| Flows.TenantHostAgrees | src/proxy.ts:9 | on a port-free production root, the router and the sign-in page read the same tenant off `<u>.<root>` |
| Flows.SubdomainOfTenantHost | src/pages/auth/login.tsx:29-32 | the sign-in page reads `u` off `<u>.<root>` on a port-free production root |
| Flows.SignedInAccountUrl | src/hooks/use-accounts.ts:66-74 | the account URL of the signed-in address is the tenant's own sub-domain |
| Flows.RegisterRedirectIsAccountUrl | src/pages/auth/register.tsx:58 | on a production root, the post-registration page is the registry's account URL for the new address |
| Flows.SameScheme | src/components/cmd.tsx:110-112 | sign-out and the post-registration redirect agree on http versus https |

## Left out

- API route handlers (`src/pages/api/*`), `src/lib/auth.ts`, `src/lib/prisma.ts` and `scripts/backfill-avatars.ts`: sessions, database queries and calls to mail and AI services. Each handler is plumbing around a foreign call. The authentication service's answer is the parameter `AuthClient.Outcome`.
- Date formatting (`formatTime`, `formatRelativeDate`): it depends on the clock and the locale.
- Base64 encoding of file bytes (`btoa`, `arrayBuffer`) is the function parameter `encode`. JSON and URI encoding in the registry and the command menu are parameters too.
- `setCookie`'s expiry, path and domain attributes, and the cookie jar itself. `Accounts.SaveThenLoad` assumes the jar shows the written pair with no earlier pair of that name.
- Rendering, toasts, loading spinners and `setLoading`. Also `switch.tsx` (a timer redirect), `index.tsx` (an animation) and `auth.tsx` (a one-line address display).
- The send request of the compose drawer and its result handling: `fetch`, the toasts, `form.reset`.
- Data fetching (`useSWR`, refresh intervals). Query results, session fields and user records are parameters.
- JsString.IndexOf: JavaScript clamps the start position to the length, so an empty pattern searched for past the end is found at the end; the model finds nothing there. Every search in the code starts at 0.
- Middleware.WwwTarget: stores the new host text verbatim. The URL host setter's normalisation (lower-casing, port parsing) is not modelled.
- Proxy.Matches: the literal pattern matched against the whole pathname. The framework's own rewriting of matcher sources (such as the data-route prefix) is not modelled.
- Proxy.Route: `NextResponse.next()` is `Pass`, and `NextResponse.redirect(url)` is a redirect with the framework's default status 307.
- JsString.ToLower: `toLowerCase` is modelled on ASCII letters only. Other scripts' case mappings are not modelled.
- Register.OnUsernameInput: inherits the ASCII-only `toLowerCase` of `JsString.ToLower`.
- Register.Submit: `password.length` is counted in Dafny characters, not UTF-16 code units, so astral characters count once.
- Cmd.FirstChar: a first character outside the Basic Multilingual Plane is returned whole, where `charAt(0)` returns its high surrogate alone. Dafny strings hold Unicode scalar values, not UTF-16 code units.
- Cmd.Initials: inherits the whole-character `charAt(0)` of `Cmd.FirstChar`.
- Accounts.StoredAccounts: the parser yields a list of strings or nothing. A JSON value that is not an array of strings loads as []. In the source such a value would be returned as it is.
- Compose.SelectFiles: the asynchronous reading of each file is collapsed into one step. Selections that overlap in time are not modelled.
- Login.Submit: the form library's `canSubmit` flag is a parameter of `Login.SubmitDisabled`. The library's validation cycle is not modelled.
