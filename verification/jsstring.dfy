/** The JavaScript string primitives the application relies on, written out
    over `seq<char>`: `includes`, `startsWith`, `endsWith`, `split`,
    `split(c)[0]`, first-occurrence `replace`, `trim`, `join`, and the `||`
    fallback on possibly-undefined strings. */
module JsString {
  import opened Wrappers

  /** `s || fallback` where `s` may be `undefined`: both `undefined` and the
      empty string are falsy in JavaScript. */
  function OrElse(s: Option<string>, fallback: string): (r: string)
    ensures r == s.GetOr("") || r == fallback
    ensures r == fallback <== s.None? || s.value == ""
    ensures r == s.GetOr("") <== s.Some? && s.value != ""
  {
    if s.Some? && s.value != "" then s.value else fallback
  }

  /** A template literal `${s}`: an undefined value renders as "undefined". */
  function Interpolate(s: Option<string>): (r: string)
    ensures s.Some? ==> r == s.value
    ensures s.None? ==> r == "undefined"
  {
    s.GetOr("undefined")
  }

  predicate StartsWith(s: string, prefix: string) {
    |prefix| <= |s| && s[..|prefix|] == prefix
  }

  predicate EndsWith(s: string, suffix: string) {
    |suffix| <= |s| && s[|s| - |suffix|..] == suffix
  }

  /** `t` occurs in `s` starting at index `i`. */
  predicate OccursAt(s: string, t: string, i: int) {
    0 <= i && i + |t| <= |s| && s[i..i + |t|] == t
  }

  /** An occurrence starts with the pattern's first character. */
  lemma OccursAtFirst(s: string, t: string, i: int)
    requires |t| > 0
    ensures OccursAt(s, t, i) ==> s[i] == t[0]
  {
    if OccursAt(s, t, i) {
      assert s[i..i + |t|][0] == s[i];
    }
  }

  /** `s.indexOf(t, from)`: the first index at or after `from` where `t` occurs.
      JavaScript clamps `from` to the length first, so an empty `t` is found at
      `|s|` for any `from` past the end; here such a search finds nothing. */
  function IndexOf(s: string, t: string, from: nat): (r: Option<nat>)
    ensures r.Some? ==> from <= r.value && OccursAt(s, t, r.value)
    ensures r.Some? ==> forall j :: from <= j < r.value ==> !OccursAt(s, t, j)
    ensures r.None? ==> forall j :: from <= j ==> !OccursAt(s, t, j)
    decreases |s| - from
  {
    if from + |t| > |s| then None
    else if s[from..from + |t|] == t then Some(from)
    else IndexOf(s, t, from + 1)
  }

  /** The search returns an occurrence when none comes before it. */
  lemma {:induction false} IndexOfLeftmost(s: string, t: string, from: nat, p: nat)
    requires from <= p && OccursAt(s, t, p)
    requires forall j :: from <= j < p ==> !OccursAt(s, t, j)
    ensures IndexOf(s, t, from) == Some(p)
    decreases p - from
  {
    if from < p {
      assert !OccursAt(s, t, from);
      IndexOfLeftmost(s, t, from + 1, p);
    }
  }

  /** `s.includes(t)`. */
  predicate Includes(s: string, t: string) {
    IndexOf(s, t, 0).Some?
  }

  lemma IncludesAt(s: string, t: string, i: int)
    requires OccursAt(s, t, i)
    ensures Includes(s, t)
  {
  }

  /** `s.replace(t, u)` with a string pattern: only the first occurrence is replaced. */
  function ReplaceFirst(s: string, t: string, u: string): (r: string)
    ensures !Includes(s, t) ==> r == s
    ensures Includes(s, t) ==>
      var i := IndexOf(s, t, 0).value;
      r == s[..i] + u + s[i + |t|..]
  {
    match IndexOf(s, t, 0)
    case None => s
    case Some(i) => s[..i] + u + s[i + |t|..]
  }

  /** A suffix that occurs nowhere earlier is what the first replacement removes. */
  lemma ReplaceUniqueSuffix(p: string, d: string)
    requires forall j :: 0 <= j < |p| ==> !OccursAt(p + d, d, j)
    ensures EndsWith(p + d, d)
    ensures ReplaceFirst(p + d, d, "") == p
  {
    var h := p + d;
    assert h[|p|..] == d;
    assert OccursAt(h, d, |p|);
    IndexOfLeftmost(h, d, 0, |p|);
    assert h[..|p|] == p && h[|p| + |d|..] == [];
  }

  /** `s.split(c)[0]`: the text before the first `c`, or all of `s`. */
  function Before(s: string, c: char): (r: string)
    ensures |r| <= |s| && r == s[..|r|]
    ensures c !in r
    ensures |r| == |s| || s[|r|] == c
  {
    if |s| == 0 || s[0] == c then "" else [s[0]] + Before(s[1..], c)
  }

  /** Without the separator, `Before` keeps the whole string. */
  lemma BeforeAbsent(s: string, c: char)
    requires c !in s
    ensures Before(s, c) == s
  {
  }

  /** `Before` ignores whatever follows the first separator. */
  lemma {:induction false} BeforeAppend(a: string, c: char, b: string)
    requires c !in a
    ensures Before(a + [c] + b, c) == a
  {
    if |a| > 0 {
      assert (a + [c] + b)[1..] == a[1..] + [c] + b;
      BeforeAppend(a[1..], c, b);
    } else {
      assert (a + [c] + b)[0] == c;
    }
  }

  /** A prefix free of the separator is kept whole. */
  lemma {:induction false} BeforePrefix(p: string, c: char, s: string)
    requires c !in p
    ensures Before(p + s, c) == p + Before(s, c)
  {
    if |p| > 0 {
      assert (p + s)[1..] == p[1..] + s;
      BeforePrefix(p[1..], c, s);
    } else {
      assert p + s == s;
    }
  }

  /** `parts.join(sep)`. */
  function Join(parts: seq<string>, sep: string): string
    decreases |parts|
  {
    if |parts| == 0 then ""
    else if |parts| == 1 then parts[0]
    else parts[0] + sep + Join(parts[1..], sep)
  }

  /** Joining one more piece adds the separator and the piece at the end. */
  lemma {:induction false} JoinAppend(parts: seq<string>, x: string, sep: string)
    requires |parts| >= 1
    ensures Join(parts + [x], sep) == Join(parts, sep) + sep + x
    decreases |parts|
  {
    if |parts| > 1 {
      assert (parts + [x])[1..] == parts[1..] + [x];
      JoinAppend(parts[1..], x, sep);
    } else {
      assert (parts + [x])[1..] == [x];
    }
  }

  /** `s.split(c)` for a one-character separator: always at least one piece,
      and no piece holds the separator. */
  function Split(s: string, c: char): (parts: seq<string>)
    ensures |parts| >= 1
    ensures parts[0] == Before(s, c)
    ensures forall i :: 0 <= i < |parts| ==> c !in parts[i]
    decreases |s|
  {
    var head := Before(s, c);
    if |head| == |s| then [s]
    else [head] + Split(s[|head| + 1..], c)
  }

  /** Joining the pieces with the separator gives the text back. */
  lemma {:induction false} JoinSplit(s: string, c: char)
    ensures Join(Split(s, c), [c]) == s
    decreases |s|
  {
    var head := Before(s, c);
    if |head| < |s| {
      var tail := s[|head| + 1..];
      SplitUnfold(s, c);
      BeforeCut(s, c);
      JoinSplit(tail, c);
      JoinFront(head, Split(tail, c), [c]);
    }
  }

  /** When the separator occurs, `split` yields the text before it followed by
      the pieces of the text after it. */
  lemma SplitUnfold(s: string, c: char)
    requires |Before(s, c)| < |s|
    ensures Split(s, c) == [Before(s, c)] + Split(s[|Before(s, c)| + 1..], c)
  {
  }

  /** The text is its part before the first separator, the separator, and the rest. */
  lemma BeforeCut(s: string, c: char)
    requires |Before(s, c)| < |s|
    ensures s == Before(s, c) + [c] + s[|Before(s, c)| + 1..]
  {
    var k := |Before(s, c)|;
    assert s == s[..k] + [s[k]] + s[k + 1..];
  }

  /** Joining a piece in front of at least one more adds the piece and the separator. */
  lemma JoinFront(x: string, rest: seq<string>, sep: string)
    requires |rest| >= 1
    ensures Join([x] + rest, sep) == x + sep + Join(rest, sep)
  {
    ConsParts(x, rest);
  }

  lemma ConsParts<T>(x: T, p: seq<T>)
    ensures |[x] + p| == |p| + 1 && ([x] + p)[0] == x && ([x] + p)[1..] == p
  {
  }

  /** Splitting a join of separator-free pieces gives the pieces back. */
  lemma {:induction false} SplitJoin(parts: seq<string>, c: char)
    requires |parts| >= 1
    requires forall i :: 0 <= i < |parts| ==> c !in parts[i]
    ensures Split(Join(parts, [c]), c) == parts
    decreases |parts|
  {
    if |parts| == 1 {
      assert Join(parts, [c]) == parts[0];
      assert Before(parts[0], c) == parts[0];
    } else {
      var tail := Join(parts[1..], [c]);
      var s := Join(parts, [c]);
      assert s == parts[0] + [c] + tail;
      BeforeAppend(parts[0], c, tail);
      assert s[|parts[0]| + 1..] == tail;
      SplitJoin(parts[1..], c);
    }
  }

  /** A JavaScript line terminator: what a regular expression's `.` refuses. */
  predicate IsLineTerminator(ch: char) {
    ch == '\n' || ch == '\r' || ch == '\U{2028}' || ch == '\U{2029}'
  }

  /** The characters `\s` matches and `trim` removes (WhiteSpace and LineTerminator). */
  predicate IsWhitespace(ch: char) {
    || ch == '\t' || ch == '\n' || ch == '\U{000B}' || ch == '\U{000C}' || ch == '\r'
    || ch == ' ' || ch == '\U{00A0}' || ch == '\U{1680}'
    || ('\U{2000}' <= ch <= '\U{200A}')
    || ch == '\U{2028}' || ch == '\U{2029}' || ch == '\U{202F}' || ch == '\U{205F}'
    || ch == '\U{3000}' || ch == '\U{FEFF}'
  }

  predicate AllWhitespace(s: string) {
    forall i :: 0 <= i < |s| ==> IsWhitespace(s[i])
  }

  /** Each character of an all-whitespace prefix is whitespace. */
  lemma WhitespacePrefix(s: string, j: int)
    requires 0 <= j <= |s| && AllWhitespace(s[..j])
    ensures forall i :: 0 <= i < j ==> IsWhitespace(s[i])
  {
    forall i | 0 <= i < j ensures IsWhitespace(s[i]) {
      assert s[..j][i] == s[i];
    }
  }

  predicate NoLineTerminator(s: string) {
    forall i :: 0 <= i < |s| ==> !IsLineTerminator(s[i])
  }

  /** The first position at or after `i` that is not whitespace, or `|s|`. */
  function SkipLeading(s: string, i: nat): (k: nat)
    requires i <= |s|
    ensures i <= k <= |s|
    ensures forall j :: i <= j < k ==> IsWhitespace(s[j])
    ensures k == |s| || !IsWhitespace(s[k])
    decreases |s| - i
  {
    if i < |s| && IsWhitespace(s[i]) then SkipLeading(s, i + 1) else i
  }

  /** Where `s[lo..hi]` ends once its trailing whitespace is dropped. */
  function SkipTrailing(s: string, lo: nat, hi: nat): (k: nat)
    requires lo <= hi <= |s|
    ensures lo <= k <= hi
    ensures forall j :: k <= j < hi ==> IsWhitespace(s[j])
    ensures k == lo || !IsWhitespace(s[k - 1])
    decreases hi
  {
    if lo < hi && IsWhitespace(s[hi - 1]) then SkipTrailing(s, lo, hi - 1) else hi
  }

  /** Where the trimmed text starts: after the leading whitespace. */
  function TrimOffset(s: string): (k: nat)
    ensures k <= |s|
  {
    SkipLeading(s, 0)
  }

  /** `trimStart`: drops exactly the leading whitespace. */
  function TrimStart(s: string): (r: string)
    ensures |r| <= |s| && r == s[|s| - |r|..]
    ensures AllWhitespace(s[..|s| - |r|])
    ensures r == "" || !IsWhitespace(r[0])
  {
    s[TrimOffset(s)..]
  }

  /** A string with no whitespace at either end. */
  predicate IsTrimmed(s: string) {
    s == "" || (!IsWhitespace(s[0]) && !IsWhitespace(s[|s| - 1]))
  }

  /** `trim`: no whitespace at either end of the result; `TrimSpec` says
      where it sits in `s`. */
  function Trim(s: string): (r: string)
    ensures IsTrimmed(r)
  {
    s[TrimOffset(s)..SkipTrailing(s, TrimOffset(s), |s|)]
  }

  /** The result sits inside `s` right after the leading whitespace, with
      only whitespace after it. */
  lemma TrimSpec(s: string)
    ensures TrimOffset(s) + |Trim(s)| <= |s|
    ensures s[TrimOffset(s)..TrimOffset(s) + |Trim(s)|] == Trim(s)
    ensures AllWhitespace(s[..TrimOffset(s)])
    ensures AllWhitespace(s[TrimOffset(s) + |Trim(s)|..])
  {
  }

  lemma SliceOfSlice<T>(s: seq<T>, k: int, n: int)
    requires 0 <= k && 0 <= n && k + n <= |s|
    ensures s[k..k + n] == s[k..][..n]
    ensures s[k + n..] == s[k..][n..]
  {
  }

  /** Trimming an already trimmed string changes nothing. */
  lemma TrimTrimmed(s: string)
    requires IsTrimmed(s)
    ensures Trim(s) == s
  {
  }

  /** A string trims to "" exactly when it is all whitespace. */
  lemma TrimEmptyIff(s: string)
    ensures Trim(s) == "" <==> AllWhitespace(s)
  {
    var r := Trim(s);
    var k := TrimOffset(s);
    TrimSpec(s);
    if r == "" {
      WhitespaceJoin(s, k);
    } else {
      assert s[k] == r[0];
    }
  }

  /** Whitespace on both sides of a cut is whitespace throughout. */
  lemma WhitespaceJoin(s: string, k: int)
    requires 0 <= k <= |s| && AllWhitespace(s[..k]) && AllWhitespace(s[k..])
    ensures AllWhitespace(s)
  {
    assert s == s[..k] + s[k..];
  }

  /** ASCII case folding of one character (`toLowerCase` on ASCII letters). */
  function LowerChar(ch: char): char {
    if 'A' <= ch <= 'Z' then (ch as int + 32) as char else ch
  }

  /** `toLowerCase`, on the ASCII letters. */
  function ToLower(s: string): (r: string)
    ensures |r| == |s|
    ensures forall i :: 0 <= i < |s| ==> r[i] == LowerChar(s[i])
  {
    if |s| == 0 then "" else [LowerChar(s[0])] + ToLower(s[1..])
  }

  /** Lower-casing leaves no ASCII capital behind and is idempotent. */
  lemma ToLowerIdempotent(s: string)
    ensures forall i :: 0 <= i < |s| ==> !('A' <= ToLower(s)[i] <= 'Z')
    ensures ToLower(ToLower(s)) == ToLower(s)
  {
  }
}
