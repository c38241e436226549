/** The inbox sidebar of src/components/email-sidebar.tsx: three notices that
    are shown independently of each other, and one item per received message. */
module Sidebar {
  import opened Wrappers
  import opened JsString
  import opened DisplayName

  const NoPreview := "No preview available"

  /** The fields of a received message that the sidebar shows. */
  datatype Email = Email(id: string, from: string, subject: Option<string>, summary: Option<string>)

  datatype Item = Item(id: string, sender: string, subject: string, preview: string, current: bool)

  /** One item: the sender's display name, the subject or "No subject", the
      summary or "No preview available", and whether it is the selected one. */
  function ItemOf(e: Email, selectedId: Option<string>): (it: Item)
    ensures it.id == e.id
    ensures it.current <==> selectedId == Some(e.id)
    ensures it.sender == Extract(e.from)
    ensures it.subject == SubjectLabel(e.subject)
    ensures it.preview != ""
    ensures e.summary.None? || e.summary.value == "" ==> it.preview == NoPreview
    ensures e.summary.Some? && e.summary.value != "" ==> it.preview == e.summary.value
  {
    Item(e.id, Extract(e.from), SubjectLabel(e.subject), OrElse(e.summary, NoPreview),
         selectedId.Some? && selectedId.value == e.id)
  }

  function Items(emails: seq<Email>, selectedId: Option<string>): (items: seq<Item>)
    ensures |items| == |emails|
    ensures forall i :: 0 <= i < |emails| ==> items[i] == ItemOf(emails[i], selectedId)
  {
    if |emails| == 0 then [] else [ItemOf(emails[0], selectedId)] + Items(emails[1..], selectedId)
  }

  /** What the sidebar shows. The three notices are separate conditions, not
      alternatives: the loader and a previously loaded list can appear together. */
  datatype Panel = Panel(loader: bool, failed: bool, noEmails: bool, items: seq<Item>)

  function PanelOf(isLoading: bool, failed: bool, emails: Option<seq<Email>>,
                   selectedId: Option<string>): (p: Panel)
    ensures p.loader == isLoading && p.failed == failed
    ensures p.noEmails <==> emails == Some([])
    ensures p.items == Items(emails.GetOr([]), selectedId)
  {
    Panel(isLoading, failed, emails.Some? && |emails.value| == 0, Items(emails.GetOr([]), selectedId))
  }

  predicate UniqueIds(emails: seq<Email>) {
    forall i, j :: 0 <= i < j < |emails| ==> emails[i].id != emails[j].id
  }

  /** With distinct message ids at most one item is current, and it is the
      selected message's. */
  lemma AtMostOneCurrent(emails: seq<Email>, selectedId: Option<string>)
    requires UniqueIds(emails)
    ensures forall i, j ::
      (0 <= i < |emails| && 0 <= j < |emails|
       && Items(emails, selectedId)[i].current && Items(emails, selectedId)[j].current) ==> i == j
    ensures forall i :: 0 <= i < |emails| && Items(emails, selectedId)[i].current ==>
      selectedId == Some(emails[i].id)
  {
  }

  /** The "No emails yet" notice and the list never both show content. */
  lemma NoEmailsMeansNoItems(isLoading: bool, failed: bool, emails: Option<seq<Email>>,
                             selectedId: Option<string>)
    ensures PanelOf(isLoading, failed, emails, selectedId).noEmails ==>
      PanelOf(isLoading, failed, emails, selectedId).items == []
    ensures |PanelOf(isLoading, failed, emails, selectedId).items| > 0 ==>
      !PanelOf(isLoading, failed, emails, selectedId).noEmails
  {
  }
}
