/** The compose drawer of src/components/compose-email.tsx: the form's
    validation, how the To and Cc fields become address lists, the attachment
    list's edits, and the body the drawer opens with. */
module Compose {
  import opened Wrappers
  import opened JsString

  const ToRequired := "To address is required"
  const SubjectRequired := "Subject is required"
  const BodyRequired := "Message body is required"

  /** The content type of a file the browser reports no type for. */
  const DefaultContentType := "application/octet-stream"

  /** What goes between the empty first lines of a new message and the signature. */
  const SignatureSeparator := "\n\n--\n"

  // ---------------------------------------------------------------------------
  // Recipient lists.

  /** `.map((e) => e.trim()).filter(Boolean)`: every piece trimmed, the empty
      ones dropped, the order kept. */
  function TrimAll(parts: seq<string>): (r: seq<string>)
    ensures |r| <= |parts|
    ensures forall x :: x in r ==> x != "" && IsTrimmed(x)
  {
    if |parts| == 0 then []
    else
      var t := Trim(parts[0]);
      var rest := TrimAll(parts[1..]);
      if t == "" then rest else [t] + rest
  }

  lemma {:induction false} TrimAllConcat(a: seq<string>, b: seq<string>)
    ensures TrimAll(a + b) == TrimAll(a) + TrimAll(b)
    decreases |a|
  {
    if |a| > 0 {
      var t := Trim(a[0]);
      assert (a + b)[0] == a[0];
      assert (a + b)[1..] == a[1..] + b;
      TrimAllConcat(a[1..], b);
      if t == "" {
        assert TrimAll(a + b) == TrimAll(a[1..] + b);
        assert TrimAll(a) == TrimAll(a[1..]);
      } else {
        assert TrimAll(a + b) == [t] + TrimAll(a[1..] + b);
        assert TrimAll(a) == [t] + TrimAll(a[1..]);
      }
    } else {
      assert a + b == b;
    }
  }

  /** Trimming keeps only characters of the original. */
  lemma TrimKeepsAbsent(s: string, c: char)
    requires c !in s
    ensures c !in Trim(s)
  {
    var r := Trim(s);
    var k := TrimOffset(s);
    TrimSpec(s);
    SliceKeepsAbsent(s, c, k, k + |r|);
  }

  lemma SliceKeepsAbsent(s: string, c: char, i: int, j: int)
    requires c !in s && 0 <= i <= j <= |s|
    ensures c !in s[i..j]
  {
    assert forall x :: 0 <= x < j - i ==> s[i..j][x] == s[i + x];
  }

  /** `value.to.split(",").map(trim).filter(Boolean)`. */
  function Recipients(s: string): (r: seq<string>)
    ensures forall x :: x in r ==> Clean(x)
  {
    var parts := Split(s, ',');
    var r := TrimAll(parts);
    RecipientsCommaFree(parts);
    r
  }

  lemma {:induction false} RecipientsCommaFree(parts: seq<string>)
    requires forall i :: 0 <= i < |parts| ==> ',' !in parts[i]
    ensures forall x :: x in TrimAll(parts) ==> ',' !in x
    decreases |parts|
  {
    if |parts| > 0 {
      TrimKeepsAbsent(parts[0], ',');
      RecipientsCommaFree(parts[1..]);
    }
  }

  /** Splitting on a character distributes over an occurrence of it. */
  lemma {:induction false} SplitConcat(a: string, c: char, b: string)
    ensures Split(a + [c] + b, c) == Split(a, c) + Split(b, c)
    decreases |a|
  {
    var n := |Before(a, c)|;
    if n == |a| {
      SplitConcatBase(a, c, b);
    } else {
      SplitConcat(a[n + 1..], c, b);
      SplitConcatStep(a, c, b);
    }
  }

  lemma SplitConcatBase(a: string, c: char, b: string)
    requires |Before(a, c)| == |a|
    ensures Split(a + [c] + b, c) == Split(a, c) + Split(b, c)
  {
    assert Before(a, c) == a;
    SplitStep(a, c, b);
  }

  lemma SplitConcatStep(a: string, c: char, b: string)
    requires |Before(a, c)| < |a|
    requires var a' := a[|Before(a, c)| + 1..];
      Split(a' + [c] + b, c) == Split(a', c) + Split(b, c)
    ensures Split(a + [c] + b, c) == Split(a, c) + Split(b, c)
  {
    var h := Before(a, c);
    var a' := a[|h| + 1..];
    SplitAtSep(a, c);
    CutAssoc(h, c, a', b);
    SplitStep(h, c, a' + [c] + b);
    ConsAssoc(h, Split(a', c), Split(b, c));
  }

  lemma ConsAssoc<T>(x: T, p: seq<T>, q: seq<T>)
    ensures [x] + (p + q) == ([x] + p) + q
  {
  }

  /** The first piece ends at the first separator; the rest is split on. */
  lemma SplitStep(h: string, c: char, rest: string)
    requires c !in h
    ensures Split(h + [c] + rest, c) == [h] + Split(rest, c)
  {
    var s := h + [c] + rest;
    BeforeAppend(h, c, rest);
    assert s[|h| + 1..] == rest;
  }

  /** Text with a separator is its first piece, the separator and the rest. */
  lemma SplitAtSep(a: string, c: char)
    requires |Before(a, c)| < |a|
    ensures a == Before(a, c) + [c] + a[|Before(a, c)| + 1..]
    ensures Split(a, c) == [Before(a, c)] + Split(a[|Before(a, c)| + 1..], c)
  {
    var h := Before(a, c);
    assert a == h + [c] + a[|h| + 1..];
  }

  lemma CutAssoc(h: string, c: char, a: string, b: string)
    ensures (h + [c] + a) + [c] + b == h + [c] + (a + [c] + b)
  {
  }

  /** One comma-free field is one address after trimming, or none when blank. */
  lemma RecipientsOfOne(s: string)
    requires ',' !in s
    ensures Recipients(s) == if AllWhitespace(s) then [] else [Trim(s)]
  {
    BeforeAbsent(s, ',');
    TrimEmptyIff(s);
  }

  /** A single clean address parses as itself. */
  lemma RecipientsOfAddress(a: string)
    requires Clean(a)
    ensures Recipients(a) == [a]
  {
    TrimEmptyIff(a);
    TrimTrimmed(a);
    RecipientsOfOne(a);
  }

  /** A comma separates independently parsed halves: the list is the
      concatenation of the pieces' trimmed, non-blank contents, in order. */
  lemma RecipientsConcat(a: string, b: string)
    ensures Recipients(a + "," + b) == Recipients(a) + Recipients(b)
  {
    assert a + "," + b == a + [','] + b;
    SplitConcat(a, ',', b);
    TrimAllConcat(Split(a, ','), Split(b, ','));
  }

  /** An address as it appears in a parsed list: non-empty, trimmed, no comma. */
  predicate Clean(a: string) {
    a != "" && IsTrimmed(a) && ',' !in a
  }

  /** Addresses written out comma-separated are read back as written. */
  lemma {:induction false} RecipientsOfJoin(addrs: seq<string>)
    requires forall x :: x in addrs ==> Clean(x)
    ensures Recipients(Join(addrs, ",")) == addrs
    decreases |addrs|
  {
    if |addrs| == 0 {
      RecipientsOfOne("");
    } else if |addrs| == 1 {
      var a := addrs[0];
      assert a in addrs;
      RecipientsOfAddress(a);
      assert Join(addrs, ",") == a;
      assert addrs == [a];
    } else {
      var a := addrs[0];
      assert a in addrs;
      var rest := addrs[1..];
      assert forall x :: x in rest ==> x in addrs;
      RecipientsOfJoin(rest);
      JoinCons(addrs, ",");
      RecipientsCons(a, Join(rest, ","));
    }
  }

  /** A clean address before a comma is the first element of the list. */
  lemma RecipientsCons(a: string, b: string)
    requires Clean(a)
    ensures Recipients(a + "," + b) == [a] + Recipients(b)
  {
    RecipientsOfAddress(a);
    RecipientsConcat(a, b);
  }

  lemma JoinCons(parts: seq<string>, sep: string)
    requires |parts| >= 2
    ensures Join(parts, sep) == parts[0] + sep + Join(parts[1..], sep)
    ensures parts == [parts[0]] + parts[1..]
  {
  }

  /** `value.cc ? parse(value.cc) : []`. */
  function CcList(cc: string): (r: seq<string>)
    ensures r == Recipients(cc)
    ensures cc == "" ==> r == []
  {
    if cc == "" then [] else Recipients(cc)
  }

  // ---------------------------------------------------------------------------
  // Attachments.

  /** A file picked in the browser: its name, its reported MIME type ("" when
      unknown) and its bytes. */
  datatype File = File(name: string, mimeType: string, data: seq<bv8>)

  datatype Attachment = Attachment(filename: string, content: string, contentType: string)

  /** One picked file as an attachment; `encode` is the base64 encoding of the bytes. */
  function ToAttachment(f: File, encode: seq<bv8> -> string): (a: Attachment)
    ensures a.filename == f.name && a.content == encode(f.data)
    ensures a.contentType != ""
    ensures f.mimeType != "" ==> a.contentType == f.mimeType
    ensures f.mimeType == "" ==> a.contentType == DefaultContentType
  {
    Attachment(f.name, encode(f.data), OrElse(Some(f.mimeType), DefaultContentType))
  }

  /** An attachment is labelled `application/octet-stream` exactly when its
      file reported no type or reported that very type, so a reported type is
      never replaced by another. */
  lemma DefaultTypeIff(f: File, encode: seq<bv8> -> string)
    ensures ToAttachment(f, encode).contentType == DefaultContentType
        <==> f.mimeType == "" || f.mimeType == DefaultContentType
  {
  }

  /** `handleFileSelect(files)`: no file list changes nothing; otherwise the
      picked files are appended, in order, after the existing attachments. */
  method SelectFiles(prev: seq<Attachment>, files: Option<seq<File>>, encode: seq<bv8> -> string)
    returns (r: seq<Attachment>)
    ensures files.None? ==> r == prev
    ensures files.Some? ==> |r| == |prev| + |files.value|
    ensures |r| >= |prev| && r[..|prev|] == prev
    ensures files.Some? ==> forall i :: 0 <= i < |files.value| ==>
      r[|prev| + i] == ToAttachment(files.value[i], encode)
  {
    if files.None? {
      return prev;
    }
    var fs := files.value;
    var added: seq<Attachment> := [];
    var i := 0;
    while i < |fs|
      invariant 0 <= i <= |fs|
      invariant |added| == i
      invariant forall j :: 0 <= j < i ==> added[j] == ToAttachment(fs[j], encode)
    {
      added := added + [ToAttachment(fs[i], encode)];
      i := i + 1;
    }
    r := prev + added;
    assert r[..|prev|] == prev;
  }

  /** `removeAttachment(index)`: keeps every element whose position is not
      `index`. */
  method RemoveAttachment(xs: seq<Attachment>, index: int) returns (r: seq<Attachment>)
    ensures 0 <= index < |xs| ==> r == xs[..index] + xs[index + 1..]
    ensures !(0 <= index < |xs|) ==> r == xs
    ensures 0 <= index < |xs| ==> multiset(r) + multiset{xs[index]} == multiset(xs)
  {
    r := [];
    var i := 0;
    while i < |xs|
      invariant 0 <= i <= |xs|
      invariant 0 <= index < i ==> r == xs[..index] + xs[index + 1..i]
      invariant !(0 <= index < i) ==> r == xs[..i]
    {
      if i != index {
        r := r + [xs[i]];
      }
      i := i + 1;
    }
    assert xs[..|xs|] == xs;
    if 0 <= index < |xs| {
      assert xs == xs[..index] + [xs[index]] + xs[index + 1..];
    }
  }

  // ---------------------------------------------------------------------------
  // The form.

  datatype Form = Form(to: string, cc: string, subject: string, body: string)

  /** `composeSchema`: the messages for the empty required fields, in field order. */
  function Validate(f: Form): (errs: seq<string>)
    ensures errs == [] <==> f.to != "" && f.subject != "" && f.body != ""
    ensures ToRequired in errs <==> f.to == ""
    ensures SubjectRequired in errs <==> f.subject == ""
    ensures BodyRequired in errs <==> f.body == ""
  {
    (if f.to == "" then [ToRequired] else [])
    + (if f.subject == "" then [SubjectRequired] else [])
    + (if f.body == "" then [BodyRequired] else [])
  }

  /** The Cc field never affects validation. */
  lemma CcUnconstrained(f: Form, cc: string)
    ensures Validate(f.(cc := cc)) == Validate(f)
  {
  }

  /** The body after the drawer's open state or the signature changes: on
      opening it is the separator and the signature when the signature is
      non-empty and does not trim to "", and empty otherwise; a closed drawer
      keeps `body`. */
  function BodyOnOpen(isOpen: bool, signature: Option<string>, body: string): (r: string)
    ensures !isOpen ==> r == body
    ensures isOpen && signature.Some? && Trim(signature.value) != "" ==>
      r == SignatureSeparator + signature.value
    ensures isOpen && (signature.None? || Trim(signature.value) == "") ==> r == ""
  {
    if isOpen && signature.Some? && signature.value != "" && Trim(signature.value) != "" then
      SignatureSeparator + signature.value
    else if isOpen then ""
    else body
  }

  /** On opening, the signature is shown exactly when it has a non-blank
      character; so a drawer opened with a blank or missing signature cannot be
      sent until a body is typed, and with a signature the body check passes
      at once. */
  lemma OpenedBodyValidation(f: Form, signature: Option<string>)
    ensures signature.Some? && !AllWhitespace(signature.value) ==>
      BodyOnOpen(true, signature, f.body) == SignatureSeparator + signature.value
    ensures signature.None? || AllWhitespace(signature.value) ==>
      BodyOnOpen(true, signature, f.body) == ""
    ensures var g := f.(body := BodyOnOpen(true, signature, f.body));
      BodyRequired in Validate(g) <==> signature.None? || AllWhitespace(signature.value)
  {
    if signature.Some? {
      TrimEmptyIff(signature.value);
    }
  }
}
