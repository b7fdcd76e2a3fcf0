/** Vocabulary shared by the blog's route handlers: optional values, document
    ids and the responses a handler sends back. */
module Common {

  datatype Option<+T> = None | Some(value: T)

  /** A MongoDB document id. The model hands out ids in increasing order and takes
      ascending id order as a collection's natural order. */
  type Id = nat

  /** The pages the handlers redirect to. */
  datatype Location = Home | Dashboard | EditPostPage(id: Id)

  /** What a response does to the `token` cookie. */
  datatype CookieChange = KeepCookie | SetToken(token: string) | ClearToken

  /** A JSON body `{ message }` sent with a status, or a redirect (status 302). */
  datatype Response =
    | Json(code: nat, message: string)
    | Redirect(location: Location, cookie: CookieChange)
}
