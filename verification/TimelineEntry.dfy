/** The timeline entries that are coalesced and then grouped by thread. */
module TimelineEntry {
  import opened Prelude

  datatype Kind = Comment | Activity

  /** `createdAt` is in milliseconds, None where the text is no date; `body` is the rest of the entry. */
  datatype Entry = Entry(
    kind: Kind, id: string, parentId: Option<string>,
    action: Option<string>, actorType: string, actorId: string,
    createdAt: Option<int>, count: Option<int>, body: string)

  function CommentOf(id: string, parentId: Option<string>, body: string): Entry {
    Entry(Comment, id, parentId, None, "member", "m", None, None, body)
  }

  function ActivityAt(time: int): Entry {
    Entry(Activity, "activity", None, Some("status_changed"), "member", "m", Some(time), None, "")
  }
}
