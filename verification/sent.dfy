/** The sent-mail page of src/pages/sent.tsx: which of its four states it
    shows, and how each sent message is summarised. */
module Sent {
  import opened Wrappers
  import opened JsString
  import opened DisplayName

  /** The fields of a sent message that the page shows. */
  datatype SentEmail = SentEmail(id: string, to: seq<string>, subject: Option<string>, isOpened: bool)

  /** `email.to.map(extractRecipientName)`. */
  function Names(to: seq<string>): (names: seq<string>)
    ensures |names| == |to|
    ensures forall i :: 0 <= i < |to| ==> names[i] == Extract(to[i])
  {
    seq(|to|, i requires 0 <= i < |to| => Extract(to[i]))
  }

  /** The `To:` line: the recipients' display names, in order, separated by `, `. */
  function RecipientLine(to: seq<string>): (line: string)
    ensures StartsWith(line, "To: ")
    ensures line[4..] == Join(Names(to), ", ")
  {
    var line := "To: " + Join(Names(to), ", ");
    assert line[..4] == "To: ";
    line
  }

  /** One recipient shows only its name; each further recipient adds `, ` and
      its name at the end, so the line lists them in the order of `to`. */
  lemma RecipientLineGrows(to: seq<string>, x: string)
    ensures RecipientLine([x]) == "To: " + Extract(x)
    ensures |to| >= 1 ==> RecipientLine(to + [x]) == RecipientLine(to) + ", " + Extract(x)
  {
    NamesOne(x);
    JoinOne(Extract(x), ", ");
    if |to| >= 1 {
      NamesAppend(to, x);
      JoinAppend(Names(to), Extract(x), ", ");
    }
  }

  lemma NamesOne(x: string)
    ensures Names([x]) == [Extract(x)]
  {
  }

  lemma JoinOne(e: string, sep: string)
    ensures Join([e], sep) == e
  {
  }

  lemma NamesAppend(to: seq<string>, x: string)
    ensures Names(to + [x]) == Names(to) + [Extract(x)]
  {
    var a := Names(to + [x]);
    var b := Names(to) + [Extract(x)];
    forall i | 0 <= i < |a| ensures a[i] == b[i] {
      if i < |to| { assert (to + [x])[i] == to[i]; } else { assert (to + [x])[i] == x; }
    }
  }

  /** What one message row shows. */
  datatype Row = Row(unreadDot: bool, recipients: string, subject: string)

  function RowOf(e: SentEmail): (row: Row)
    ensures row.unreadDot <==> !e.isOpened
    ensures row.recipients == RecipientLine(e.to)
    ensures row.subject != ""
    ensures e.subject.Some? && e.subject.value != "" ==> row.subject == e.subject.value
    ensures e.subject.None? || e.subject.value == "" ==> row.subject == NoSubject
  {
    Row(!e.isOpened, RecipientLine(e.to), SubjectLabel(e.subject))
  }

  function Rows(emails: seq<SentEmail>): (rows: seq<Row>)
    ensures |rows| == |emails|
    ensures forall i :: 0 <= i < |emails| ==> rows[i] == RowOf(emails[i])
  {
    if |emails| == 0 then [] else [RowOf(emails[0])] + Rows(emails[1..])
  }

  /** The page's body: one of four exclusive states. */
  datatype View = Loading | LoadFailed | NoneYet | List(rows: seq<Row>)

  /** Loading wins over an error, an error over the data; a loaded empty list
      says so; otherwise the rows, none when there is no data at all. */
  function ViewOf(isLoading: bool, failed: bool, emails: Option<seq<SentEmail>>): (v: View)
    ensures v.Loading? <==> isLoading
    ensures v.LoadFailed? <==> !isLoading && failed
    ensures v.NoneYet? <==> !isLoading && !failed && emails == Some([])
    ensures v.List? ==> v.rows == Rows(emails.GetOr([]))
  {
    if isLoading then Loading
    else if failed then LoadFailed
    else if emails.Some? && |emails.value| == 0 then NoneYet
    else List(Rows(emails.GetOr([])))
  }

  /** A shown list is never empty unless there was no data: every loaded
      message gets exactly one row, in the order received. */
  lemma ListedRowsMatch(isLoading: bool, failed: bool, emails: seq<SentEmail>)
    requires !isLoading && !failed && emails != []
    ensures ViewOf(isLoading, failed, Some(emails)) == List(Rows(emails))
    ensures |ViewOf(isLoading, failed, Some(emails)).rows| == |emails| > 0
  {
  }
}
