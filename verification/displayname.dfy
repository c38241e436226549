/** How a message's parties and subject are shown in lists. The name
    extractor is the same function in src/components/cmd.tsx
    (`extractSenderName`), src/components/email-sidebar.tsx
    (`extractSenderName`) and src/pages/sent.tsx (`extractRecipientName`):
    the display name of `Name <address>` by the regular expression
    `^(.+?)\s*<.+>$`, else the text before the first `@`. */
module DisplayName {
  import opened Wrappers
  import opened JsString

  const NoSubject := "No subject"

  /** `subject || "No subject"`: a missing or empty subject shows the placeholder. */
  function SubjectLabel(subject: Option<string>): (shown: string)
    ensures shown != ""
    ensures subject.Some? && subject.value != "" ==> shown == subject.value
    ensures subject.None? || subject.value == "" ==> shown == NoSubject
  {
    OrElse(subject, NoSubject)
  }

  // ---------------------------------------------------------------------------
  // The regular expression `^(.+?)\s*<.+>$`, without flags.

  /** `t` matches `\s*<.+>$`: whitespace, `<`, at least one character that is
      not a line terminator, and `>` as the last character. */
  predicate TailMatches(t: string) {
    exists j :: 0 <= j && j + 2 < |t| && AllWhitespace(t[..j]) && t[j] == '<'
      && t[|t| - 1] == '>' && NoLineTerminator(t[j + 1..|t| - 1])
  }

  /** The lazy group `(.+?)` can end at `k`: it is non-empty, holds no line
      terminator, and the rest of the text matches the tail. */
  predicate MatchesAt(s: string, k: int) {
    1 <= k <= |s| && NoLineTerminator(s[..k]) && TailMatches(s[k..])
  }

  /** The tail test without the search: the whitespace `\s*` can take is
      exactly the leading whitespace, so `<` must come right after it. */
  predicate TailOk(t: string) {
    var u := TrimStart(t);
    |u| >= 3 && u[0] == '<' && u[|u| - 1] == '>' && NoLineTerminator(u[1..|u| - 1])
  }

  lemma TailOkIff(t: string)
    ensures TailOk(t) <==> TailMatches(t)
  {
    if TailOk(t) { TailOkMatches(t); }
    if TailMatches(t) { TailMatchesOk(t); }
  }

  lemma TailOkMatches(t: string)
    requires TailOk(t)
    ensures TailMatches(t)
  {
    var u := TrimStart(t);
    var d := |t| - |u|;
    assert u == t[d..];
    assert t[d] == u[0];
    assert t[d + 1..|t| - 1] == u[1..|u| - 1];
    assert t[|t| - 1] == u[|u| - 1];
    assert AllWhitespace(t[..d]);
    assert 0 <= d && d + 2 < |t| && AllWhitespace(t[..d]) && t[d] == '<'
      && t[|t| - 1] == '>' && NoLineTerminator(t[d + 1..|t| - 1]);
  }

  lemma TailMatchesOk(t: string)
    requires TailMatches(t)
    ensures TailOk(t)
  {
    var u := TrimStart(t);
    var d := |t| - |u|;
    var j :| 0 <= j && j + 2 < |t| && AllWhitespace(t[..j]) && t[j] == '<'
      && t[|t| - 1] == '>' && NoLineTerminator(t[j + 1..|t| - 1]);
    assert !IsWhitespace(t[j]);
    assert d == |t| || t[d] == u[0];
    FirstNonWhitespace(t, j, d);
    assert u[1..|u| - 1] == t[j + 1..|t| - 1];
  }

  /** Two positions that each end a run of leading whitespace are the same. */
  lemma FirstNonWhitespace(t: string, j: int, d: int)
    requires 0 <= j < |t| && AllWhitespace(t[..j]) && !IsWhitespace(t[j])
    requires 0 <= d <= |t| && AllWhitespace(t[..d]) && (d == |t| || !IsWhitespace(t[d]))
    ensures j == d
  {
    WhitespacePrefix(t, j);
    WhitespacePrefix(t, d);
  }

  /** Text without `<` has no tail. */
  lemma NoAngleNoTail(t: string)
    requires '<' !in t
    ensures !TailMatches(t)
  {
  }

  /** The regular expression's search for the end of the lazy group, from
      `k` upwards: the first `k` whose tail matches, stopping at the first
      line terminator, which `.` cannot cross. Its meaning is stated by
      `CaptureFromSpec`. */
  function CaptureFrom(s: string, k: nat): (r: Option<nat>)
    requires 1 <= k <= |s| + 1
    requires NoLineTerminator(s[..k - 1])
    ensures r.Some? ==> k <= r.value <= |s|
    decreases |s| - k
  {
    if k > |s| then None
    else if IsLineTerminator(s[k - 1]) then None
    else
      MatchStep(s, k);
      if TailOk(s[k..]) then Some(k) else CaptureFrom(s, k + 1)
  }

  /** `e` is the first group end from `k` on at which the text matches. */
  predicate FirstFrom(s: string, k: int, e: int) {
    k <= e && MatchesAt(s, e) && forall k' :: k <= k' < e ==> !MatchesAt(s, k')
  }

  /** No group end from `k` on matches. */
  ghost predicate NoneFrom(s: string, k: int) {
    forall k' :: k <= k' ==> !MatchesAt(s, k')
  }

  /** The search answers the first group end from `k` on, and none when no
      end from `k` on matches. */
  lemma {:induction false} CaptureFromSpec(s: string, k: nat)
    requires 1 <= k <= |s| + 1
    requires NoLineTerminator(s[..k - 1])
    ensures CaptureFrom(s, k).Some? ==> FirstFrom(s, k, CaptureFrom(s, k).value)
    ensures CaptureFrom(s, k).None? ==> NoneFrom(s, k)
    decreases |s| - k
  {
    if k > |s| {
    } else if IsLineTerminator(s[k - 1]) {
      LineTerminatorStops(s, k);
    } else {
      MatchStep(s, k);
      if !TailOk(s[k..]) {
        var r := CaptureFrom(s, k + 1);
        assert CaptureFrom(s, k) == r;
        CaptureFromSpec(s, k + 1);
        if r.Some? { SkipFirst(s, k, r.value); } else { SkipNone(s, k); }
      }
    }
  }

  lemma SkipFirst(s: string, k: int, e: int)
    requires !MatchesAt(s, k) && FirstFrom(s, k + 1, e)
    ensures FirstFrom(s, k, e)
  {
  }

  lemma SkipNone(s: string, k: int)
    requires !MatchesAt(s, k) && NoneFrom(s, k + 1)
    ensures NoneFrom(s, k)
  {
  }

  /** The shortest lazy group: the first end at which the text matches. */
  predicate FirstMatch(s: string, k: int) {
    MatchesAt(s, k) && forall k' :: 1 <= k' < k ==> !MatchesAt(s, k')
  }

  lemma FirstMatchUnique(s: string, a: int, b: int)
    requires FirstMatch(s, a) && FirstMatch(s, b)
    ensures a == b
  {
  }

  /** Where the lazy group ends, when the text matches at all. */
  function Capture(s: string): (r: Option<nat>)
    ensures r.Some? ==> 1 <= r.value <= |s|
  {
    if |s| == 0 then None else CaptureFrom(s, 1)
  }

  /** The capture is the shortest match, and there is none exactly when no
      group end matches. */
  lemma CaptureSpec(s: string)
    ensures Capture(s).Some? ==> FirstMatch(s, Capture(s).value)
    ensures Capture(s).None? <==> forall k :: !MatchesAt(s, k)
  {
    if |s| > 0 {
      CaptureFromSpec(s, 1);
    }
  }

  /** `extractSenderName` / `extractRecipientName`: the trimmed capture of the
      shortest match, or the text before the first `@` when nothing matches.
      Its meaning is stated by `ExtractSpec`. */
  function Extract(s: string): string {
    match Capture(s)
    case None => Before(s, '@')
    case Some(c) => Trim(s[..c])
  }

  /** Text the pattern does not match shows its part before `@`; text it
      matches shows the trimmed shortest group. */
  lemma ExtractSpec(s: string)
    ensures (forall k :: !MatchesAt(s, k)) ==> Extract(s) == Before(s, '@')
    ensures forall k :: FirstMatch(s, k) ==> Extract(s) == Trim(s[..k])
  {
    CaptureSpec(s);
    match Capture(s)
    case None =>
    case Some(c) =>
      forall k | FirstMatch(s, k) ensures k == c { FirstMatchUnique(s, k, c); }
  }

  /** A line terminator the group would have to take ends the search. */
  lemma LineTerminatorStops(s: string, k: int)
    requires 1 <= k <= |s| && IsLineTerminator(s[k - 1])
    ensures NoneFrom(s, k)
  {
    forall k' | k <= k' <= |s| ensures !NoLineTerminator(s[..k']) {
      assert s[..k'][k - 1] == s[k - 1];
    }
  }

  /** One more character without a line terminator: the group may end here
      exactly when the rest passes the direct tail test. */
  lemma MatchStep(s: string, k: int)
    requires 1 <= k <= |s| && NoLineTerminator(s[..k - 1]) && !IsLineTerminator(s[k - 1])
    ensures NoLineTerminator(s[..k])
    ensures MatchesAt(s, k) <==> TailOk(s[k..])
  {
    assert s[..k] == s[..k - 1] + [s[k - 1]];
    TailOkIff(s[k..]);
  }

  // ---------------------------------------------------------------------------
  // What the extractor gives on the two shapes it is written for.

  /** `Name <address>` with any whitespace before `<` shows `Name`, when the
      name is trimmed, holds no `<` and no line break, and the address is a
      non-empty single line. */
  lemma {:induction false} ExtractDisplayName(n: string, w: string, a: string)
    requires n != "" && IsTrimmed(n) && '<' !in n && NoLineTerminator(n)
    requires AllWhitespace(w)
    requires a != "" && NoLineTerminator(a)
    ensures Extract(n + w + "<" + a + ">") == n
  {
    var s := n + w + "<" + a + ">";
    var m := |n|;
    forall k | 1 <= k < m ensures !MatchesAt(s, k) {
      NoEarlyTail(s, n, k);
    }
    var t := s[m..];
    assert t == w + "<" + a + ">";
    assert t[..|w|] == w && t[|w|] == '<';
    assert t[|w| + 1..|t| - 1] == a;
    assert TailMatches(t);
    assert s[..m] == n;
    assert MatchesAt(s, m);
    assert FirstMatch(s, m);
    ExtractSpec(s);
    TrimTrimmed(n);
  }

  /** Inside a trimmed name free of `<`, no tail can start: its first
      non-whitespace character is a character of the name. */
  lemma NoEarlyTail(s: string, n: string, k: int)
    requires n != "" && IsTrimmed(n) && '<' !in n
    requires |n| <= |s| && s[..|n|] == n
    requires 1 <= k < |n|
    ensures !TailMatches(s[k..])
  {
    var t := s[k..];
    var last := |n| - 1 - k;
    assert t[last] == n[|n| - 1];
    forall j | 0 <= j < |t| && AllWhitespace(t[..j]) ensures t[j] != '<' {
      WhitespacePrefix(t, j);
      assert !IsWhitespace(t[last]);
      assert t[j] == n[k + j];
    }
  }

  /** Text with no `<` never matches, so it shows its local part. */
  lemma ExtractPlainAddress(s: string)
    requires '<' !in s
    ensures Extract(s) == Before(s, '@')
  {
    forall k | 1 <= k <= |s| ensures !TailMatches(s[k..]) {
      NoAngleNoTail(s[k..]);
    }
    NoTailExtract(s);
  }

  /** When no tail matches after a non-empty prefix, the pattern does not
      match and the text before `@` is shown. */
  lemma NoTailExtract(s: string)
    requires forall k :: 1 <= k <= |s| ==> !TailMatches(s[k..])
    ensures Extract(s) == Before(s, '@')
  {
    assert forall k :: !MatchesAt(s, k);
    ExtractSpec(s);
  }

  /** A bare `<address>` has no name before the bracket, so nothing matches
      and the text before `@`, bracket included, is shown. */
  lemma ExtractBareBrackets(a: string)
    requires '<' !in a
    ensures Extract("<" + a) == Before("<" + a, '@')
  {
    var s := "<" + a;
    forall k | 1 <= k <= |s| ensures !TailMatches(s[k..]) {
      BracketedSuffix(a, k);
      NoAngleNoTail(a[k - 1..]);
    }
    NoTailExtract(s);
  }

  lemma BracketedSuffix(a: string, k: int)
    requires 1 <= k <= |a| + 1
    ensures ("<" + a)[k..] == a[k - 1..]
  {
  }

  /** A bare `<local@domain>` shows `<local`: the bracket stays and the
      domain goes. */
  lemma BareBracketsShowLocalPart(l: string, d: string)
    requires '<' !in l && '<' !in d && '@' !in l
    ensures Extract("<" + l + "@" + d + ">") == "<" + l
  {
    var a := l + "@" + d + ">";
    BracketedAssoc(l, d);
    NoAngleInAddress(l, d);
    BeforeAtOfBracketed(l, d);
    ExtractBareBrackets(a);
  }

  lemma BracketedAssoc(l: string, d: string)
    ensures "<" + l + "@" + d + ">" == "<" + (l + "@" + d + ">")
  {
  }

  lemma NoAngleInAddress(l: string, d: string)
    requires '<' !in l && '<' !in d
    ensures '<' !in l + "@" + d + ">"
  {
    var a := l + "@" + d + ">";
    forall i | 0 <= i < |a| ensures a[i] != '<' {
      if i < |l| { assert a[i] == l[i]; }
      else if |l| < i < |l| + 1 + |d| { assert a[i] == d[i - |l| - 1]; }
    }
  }

  lemma BeforeAtOfBracketed(l: string, d: string)
    requires '@' !in l
    ensures Before("<" + l + "@" + d + ">", '@') == "<" + l
  {
    assert "<" + l + "@" + d + ">" == ("<" + l) + ['@'] + (d + ">");
    BeforeAppend("<" + l, '@', d + ">");
  }
}
