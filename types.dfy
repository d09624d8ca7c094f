/** The client-side task record and its attachments. */
module TodoTypes {
  import opened Wrappers

  datatype AttachmentKind = Image | Audio | Video | Pdf | Spreadsheet | Document | Text | File

  /** An uploaded file; `mimeType` is the record's `type` field (a reserved word here). */
  datatype Attachment = Attachment(
    id: string,
    name: string,
    mimeType: string,
    size: int,
    bucket: string,
    path: string,
    kind: AttachmentKind)

  /** A task; `dueAt` is a naive local date-time meant to read `YYYY-MM-DDTHH:mm`. */
  datatype Todo = Todo(
    id: string,
    title: string,
    description: Option<string>,
    completed: bool,
    dueAt: string,
    attachments: seq<Attachment>)

  datatype DailyLoad = Light | Balanced | Heavy
}
