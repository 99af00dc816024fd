/** The uniform response envelope `{ status, message, data?, statusCode }` every handler answers with. */
module ApiResponse {
  import opened Wrappers
  import opened Students

  const OK: int := 200
  const CREATED: int := 201
  const BAD_REQUEST: int := 400
  const NOT_FOUND: int := 404
  const CONFLICT: int := 409
  const INTERNAL_SERVER_ERROR: int := 500

  /** The `data` payloads: one document, a page of the list, or the `{ exists }` answer of check-roll. */
  datatype Data =
    | One(record: Record)
    | Page(total: nat, page: int, limit: int, students: seq<Record>)
    | RollExists(found: bool)

  datatype Envelope = Envelope(status: bool, message: string, data: Option<Data>, statusCode: int)

  /** An error envelope: status false and no data. */
  function Failure(message: string, statusCode: int): Envelope {
    Envelope(false, message, None, statusCode)
  }

  /** A write handler's answer: the envelope and the collection after the request. */
  datatype Reply = Reply(envelope: Envelope, store: Store)
}
