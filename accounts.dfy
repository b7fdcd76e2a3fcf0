/** The `users` collection and the handlers that write it: POST /register and
    POST /profile/delete. */
module Accounts {
  import opened Common
  import opened UserModel
  import opened Registration

  const UserNotFound := "User not found"
  /** The profile handler capitalises this message; the register handler does not. */
  const DeleteFailed := "Internal Server Error"

  /** The `users` collection. Ids come from a counter; the schema's validators and the
      unique index keep `StoreInvariant`. */
  class UserStore {
    var users: map<Id, User>
    var nextId: Id

    ghost predicate Valid()
      reads this
    {
      StoreInvariant(users) && forall id | id in users :: id < nextId
    }

    constructor ()
      ensures Valid() && users == map[]
    {
      users := map[];
      nextId := 0;
    }

    /** POST /register. `hashed` is what `bcrypt.hash(password, 10)` returned and
        `writeFails` says the database refuses the insert for a reason of its own. A user
        is stored only on 201; every other answer leaves the collection as it was. */
    method Register(f: Form, hashed: string, writeFails: bool) returns (resp: Response)
      requires Valid()
      modifies this
      ensures Valid()
      ensures resp == RegisterResponse(old(users), f, hashed, writeFails)
      ensures resp.code == 201 ==> users == old(users)[old(nextId) := User(f.username, hashed)]
      ensures resp.code != 201 ==> users == old(users) && nextId == old(nextId)
    {
      var broken := Check(f);
      if broken.Some? {
        return Json(400, Message(broken.value));
      }
      var user := User(f.username, hashed);
      var created := Create(users, user, writeFails);
      if created == Inserted {
        CreateKeepsInvariant(users, nextId, user, writeFails);
        users := users[nextId := user];
        nextId := nextId + 1;
        return Json(201, UserCreated);
      }
      if created.Code() == Some(DuplicateKeyCode) {
        return Json(409, UsernameInUse);
      }
      resp := Json(500, InternalError);
    }

    /** POST /profile/delete for the user the gate admitted: `findByIdAndDelete`, then
        404 when there was no such user, otherwise clear the cookie and go home.
        `deleteFails` says `findByIdAndDelete` rejects (a database failure, or an id
        that does not cast), which the handler answers with 500. */
    method DeleteProfile(userId: Id, deleteFails: bool) returns (resp: Response)
      requires Valid()
      modifies this
      ensures Valid() && nextId == old(nextId)
      ensures deleteFails ==> resp == Json(500, "Internal Server Error") && users == old(users)
      ensures !deleteFails ==> users == old(users) - {userId}
      ensures !deleteFails && userId in old(users) ==> resp == Redirect(Home, ClearToken)
      ensures !deleteFails && userId !in old(users) ==> resp == Json(404, "User not found")
    {
      if deleteFails {
        return Json(500, DeleteFailed);
      }
      if userId !in users {
        return Json(404, UserNotFound);
      }
      users := users - {userId};
      resp := Redirect(Home, ClearToken);
    }
  }
}
