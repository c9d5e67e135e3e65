/** The values exchanged between the notes API and its browser client. */
module NoteModel {

  datatype Option<+T> = None | Some(value: T)

  /** Identifiers are opaque strings on both sides of the wire. */
  type UserId = string
  type NoteId = string

  /** A stored note; `id` is the store key (`_id`). */
  datatype Note = Note(id: NoteId, user: UserId, title: string, content: string,
                       tags: seq<string>, createdAt: int)

  /** A JSON request body for create or update: any field may be absent. */
  datatype NoteBody = NoteBody(user: Option<UserId>, title: Option<string>,
                               content: Option<string>, tags: Option<seq<string>>)

  /** The `data` member of a response envelope. */
  datatype Payload = NoPayload | NoteList(notes: seq<Note>) | OneNote(note: Note) | EmptyObject

  /** `{ success, data?, message?, count? }` */
  datatype Envelope = Envelope(success: bool, data: Payload, message: Option<string>, count: Option<nat>)

  datatype Response = Response(status: int, body: Envelope)

  /** A failure response: `{ success: false, message }`. */
  function Failure(status: int, message: string): Response
  {
    Response(status, Envelope(false, NoPayload, Some(message), None))
  }

  /** JavaScript truthiness of an optional string: present and not empty. */
  predicate Given(s: Option<string>)
  {
    s.Some? && s.value != ""
  }
}
