/** The admin routes that sit behind `authMiddleware`: the gate runs first, and the
    handler runs only when the gate calls `next`. */
module AdminRoutes {
  import opened Common
  import opened Auth
  import opened Posts
  import opened Accounts

  /** A request to a protected route that writes a collection, with its parameters. */
  datatype Route =
    | AddPostRoute(title: string, body: string)
    | EditPostRoute(id: Id, title: string, body: string)
    | DeletePostRoute(id: Id)
    | DeleteProfileRoute(deleteFails: bool)

  /** Serves `route` for `req`. `now` stands for `Date.now()`. */
  method Serve(req: Request, posts: PostStore, users: UserStore,
               verify: string -> Option<Id>, route: Route, now: int) returns (resp: Response)
    requires req.response == None && req.nextCalls == 0
    requires posts.Valid() && users.Valid()
    modifies req, posts, users
    ensures posts.Valid() && users.Valid()
    ensures Gate(req.token, verify).Deny? ==>
      resp == Json(401, Gate(req.token, verify).message)
      && req.nextCalls == 0 && req.userId == old(req.userId)
      && posts.posts == old(posts.posts) && posts.nextId == old(posts.nextId)
      && users.users == old(users.users) && users.nextId == old(users.nextId)
    ensures Gate(req.token, verify).Admit? ==>
      req.userId == Some(Gate(req.token, verify).userId) && req.nextCalls == 1
    ensures Gate(req.token, verify).Admit? && route.AddPostRoute? ==>
      resp == AddPostResponse(route.title, route.body)
      && (resp.code == 200 ==>
            posts.posts == old(posts.posts)[old(posts.nextId) := Post(old(posts.nextId), route.title, route.body, now, now)]
            && posts.Contents() == old(posts.Contents()) + [Post(old(posts.nextId), route.title, route.body, now, now)])
      && (resp.code != 200 ==> posts.posts == old(posts.posts) && posts.nextId == old(posts.nextId))
    ensures Gate(req.token, verify).Admit? && route.EditPostRoute? ==>
      resp == Redirect(EditPostPage(route.id), KeepCookie)
      && posts.nextId == old(posts.nextId)
      && (route.id in old(posts.posts) ==> posts.posts == old(posts.posts)[route.id :=
            old(posts.posts)[route.id].(title := route.title, body := route.body, updatedAt := now)])
      && (route.id !in old(posts.posts) ==> posts.posts == old(posts.posts))
    ensures Gate(req.token, verify).Admit? && route.DeletePostRoute? ==>
      resp == Redirect(Dashboard, KeepCookie)
      && posts.posts == old(posts.posts) - {route.id} && posts.nextId == old(posts.nextId)
      && posts.Contents() == Without(old(posts.Contents()), route.id)
    ensures Gate(req.token, verify).Admit? && route.DeleteProfileRoute? ==>
      var userId := Gate(req.token, verify).userId;
      users.nextId == old(users.nextId)
      && (route.deleteFails ==> resp == Json(500, "Internal Server Error") && users.users == old(users.users))
      && (!route.deleteFails ==> users.users == old(users.users) - {userId})
      && (!route.deleteFails && userId in old(users.users) ==> resp == Redirect(Home, ClearToken))
      && (!route.deleteFails && userId !in old(users.users) ==> resp == Json(404, "User not found"))
    ensures !route.DeleteProfileRoute? ==> users.users == old(users.users) && users.nextId == old(users.nextId)
    ensures route.DeleteProfileRoute? ==> posts.posts == old(posts.posts) && posts.nextId == old(posts.nextId)
  {
    req.AuthMiddleware(verify);
    if req.nextCalls == 0 {
      resp := req.response.value;
      return;
    }
    match route {
      case AddPostRoute(title, body) =>
        resp := posts.AddPost(title, body, now);
      case EditPostRoute(id, title, body) =>
        resp := posts.EditPost(id, title, body, now);
      case DeletePostRoute(id) =>
        resp := posts.DeletePost(id);
      case DeleteProfileRoute(deleteFails) =>
        resp := users.DeleteProfile(req.userId.value, deleteFails);
    }
  }
}
