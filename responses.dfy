/**
 * What a handler sends back: the HTTP status, the human-readable text (the
 * "message" or "error" field of the JSON body; empty when the body is a bare
 * row or list), and the data the body carries.
 */
module Responses {
  import opened Records

  const StatusOK: nat := 200
  const StatusBadRequest: nat := 400
  const StatusUnauthorized: nat := 401
  const StatusForbidden: nat := 403
  const StatusNotFound: nat := 404
  const StatusConflict: nat := 409
  const StatusInternalServerError: nat := 500

  /** The data fields of a response body. */
  datatype Payload =
    | NoData
    | ItemList(items: seq<Item>)
    | OneItem(item: Item)
    | PostList(posts: seq<Post>)
    | OnePost(post: Post)
      /** Login's reply: user_id, username, email and token, and no password field. */
    | LoginData(userId: nat, username: Bytes, email: Bytes, token: string)
      /** Register's reply: id, username and email, and no password field. */
    | UserSummary(id: nat, username: Bytes, email: Bytes)

  datatype Response = Response(status: nat, message: string, data: Payload)
}
