/** The `posts` collection and the admin handlers that write it: POST /add-post,
    PUT /edit-post/:id and DELETE /delete-post/:id. */
module Posts {
  import opened Common

  /** A stored post. `createdAt` and `updatedAt` are timestamps in milliseconds. */
  datatype Post = Post(id: Id, title: string, body: string, createdAt: int, updatedAt: int)

  /** The minimum title and body length the add-post handler asks for. */
  const MinPostLength: nat := 9

  const TitleTooShort := "Title must be at least 9 characters"
  const BodyTooShort := "Body must be at least 9 characters"
  const PostCreated := "Post created successfully"

  /** The answer of POST /add-post: the title is checked before the body. */
  function AddPostResponse(title: string, body: string): (r: Response)
    ensures r.Json?
    ensures r.code == 200 <==> |title| >= MinPostLength && |body| >= MinPostLength
    ensures r.code != 200 ==> r.code == 400
    ensures |title| < MinPostLength ==> r.message == "Title must be at least 9 characters"
    ensures |title| >= MinPostLength && |body| < MinPostLength ==> r.message == "Body must be at least 9 characters"
  {
    if |title| < MinPostLength then Json(400, TitleTooShort)
    else if |body| < MinPostLength then Json(400, BodyTooShort)
    else Json(200, PostCreated)
  }

  /** Every post is stored under its own id. */
  predicate Keyed(m: map<Id, Post>)
  {
    forall id | id in m :: m[id].id == id
  }

  /** The posts with ids below `bound`, in natural (ascending id) order. */
  function Collection(m: map<Id, Post>, bound: Id): seq<Post>
  {
    if bound == 0 then []
    else
      var rest := Collection(m, bound - 1);
      if bound - 1 in m then rest + [m[bound - 1]] else rest
  }

  /** One step of `Collection`: the listing below `bound` extends the listing below
      `bound - 1` by the post stored under `bound - 1`, if any. */
  lemma CollectionStep(m: map<Id, Post>, bound: Id)
    requires bound > 0
    ensures bound - 1 in m ==> Collection(m, bound) == Collection(m, bound - 1) + [m[bound - 1]]
    ensures bound - 1 !in m ==> Collection(m, bound) == Collection(m, bound - 1)
  {
  }

  /** The listing holds every stored post below `bound` exactly once, in strictly
      ascending id order, and nothing else. */
  lemma {:induction false} CollectionInOrder(m: map<Id, Post>, bound: Id)
    requires Keyed(m)
    ensures var r := Collection(m, bound);
      (forall i, j | 0 <= i < j < |r| :: r[i].id < r[j].id)
      && (forall i | 0 <= i < |r| :: r[i].id < bound && r[i].id in m && m[r[i].id] == r[i])
      && (forall id | id in m && id < bound :: m[id] in r)
  {
    if bound > 0 {
      CollectionInOrder(m, bound - 1);
      CollectionStep(m, bound);
    }
  }

  /** Two maps that agree on the ids below `bound` list the same posts. */
  lemma {:induction false} CollectionAgree(m1: map<Id, Post>, m2: map<Id, Post>, bound: Id)
    requires forall id | id < bound :: (id in m1 <==> id in m2) && (id in m1 ==> m1[id] == m2[id])
    ensures Collection(m1, bound) == Collection(m2, bound)
  {
    if bound > 0 {
      CollectionAgree(m1, m2, bound - 1);
      CollectionStep(m1, bound);
      CollectionStep(m2, bound);
    }
  }

  /** Adding a post under a fresh id above all others appends it to the listing. */
  lemma CollectionAppend(m: map<Id, Post>, p: Post)
    requires Keyed(m) && forall id | id in m :: id < p.id
    ensures Keyed(m[p.id := p])
    ensures Collection(m[p.id := p], p.id + 1) == Collection(m, p.id) + [p]
  {
    CollectionAgree(m[p.id := p], m, p.id);
    CollectionStep(m[p.id := p], p.id + 1);
  }

  /** The posts of `s` whose id is not `id`, in order. */
  function Without(s: seq<Post>, id: Id): seq<Post>
  {
    if s == [] then []
    else
      var last := s[|s| - 1];
      Without(s[..|s| - 1], id) + (if last.id == id then [] else [last])
  }

  /** `Without` keeps exactly the posts whose id is not `id`. */
  lemma {:induction false} WithoutKeeps(s: seq<Post>, id: Id)
    ensures forall p :: p in Without(s, id) <==> p in s && p.id != id
  {
    if s != [] {
      WithoutKeeps(s[..|s| - 1], id);
      assert s == s[..|s| - 1] + [s[|s| - 1]];
    }
  }

  /** `Without` on a sequence with one more post at the end. */
  lemma WithoutSnoc(s: seq<Post>, x: Post, id: Id)
    ensures Without(s + [x], id) == Without(s, id) + (if x.id == id then [] else [x])
  {
    assert (s + [x])[..|s + [x]| - 1] == s;
  }

  /** The inductive step of `CollectionRemove`: removing `id` commutes with listing one
      more id. */
  lemma RemoveStep(m: map<Id, Post>, bound: Id, id: Id)
    requires Keyed(m) && bound > 0
    requires Collection(m - {id}, bound - 1) == Without(Collection(m, bound - 1), id)
    ensures Collection(m - {id}, bound) == Without(Collection(m, bound), id)
  {
    var k, before := bound - 1, Collection(m, bound - 1);
    CollectionStep(m, bound);
    CollectionStep(m - {id}, bound);
    if k in m {
      WithoutSnoc(before, m[k], id);
      if k == id {
        assert Without(before, id) + [] == Without(before, id);
      } else {
        assert (m - {id})[k] == m[k];
      }
    }
  }

  /** Deleting an id removes exactly that post from the listing and keeps the order. */
  lemma {:induction false} CollectionRemove(m: map<Id, Post>, bound: Id, id: Id)
    requires Keyed(m)
    ensures Collection(m - {id}, bound) == Without(Collection(m, bound), id)
  {
    if bound > 0 {
      CollectionRemove(m, bound - 1, id);
      RemoveStep(m, bound, id);
    }
  }

  /** The `posts` collection. Ids come from a counter, so the natural order of the
      collection is ascending id order. */
  class PostStore {
    var posts: map<Id, Post>
    var nextId: Id

    ghost predicate Valid()
      reads this
    {
      Keyed(posts) && forall id | id in posts :: id < nextId
    }

    /** The collection in natural order. */
    function Contents(): seq<Post>
      reads this
      requires Valid()
    {
      Collection(posts, nextId)
    }

    constructor ()
      ensures Valid() && posts == map[] && Contents() == []
    {
      posts := map[];
      nextId := 0;
    }

    /** POST /add-post. `now` is the creation time the model gives both timestamps. */
    method AddPost(title: string, body: string, now: int) returns (resp: Response)
      requires Valid()
      modifies this
      ensures Valid()
      ensures resp == AddPostResponse(title, body)
      ensures resp.code == 200 ==> Contents() == old(Contents()) + [Post(old(nextId), title, body, now, now)]
      ensures resp.code == 200 ==> posts == old(posts)[old(nextId) := Post(old(nextId), title, body, now, now)]
      ensures resp.code != 200 ==> posts == old(posts) && nextId == old(nextId)
    {
      if |title| < MinPostLength {
        return Json(400, TitleTooShort);
      }
      if |body| < MinPostLength {
        return Json(400, BodyTooShort);
      }
      var post := Post(nextId, title, body, now, now);
      CollectionAppend(posts, post);
      posts := posts[nextId := post];
      nextId := nextId + 1;
      resp := Json(200, PostCreated);
    }

    /** PUT /edit-post/:id: `findByIdAndUpdate` rewrites the title, the body and
        `updatedAt` of the post, with no length check; an unknown id changes nothing.
        Either way the answer redirects to the edit page. */
    method EditPost(id: Id, title: string, body: string, now: int) returns (resp: Response)
      requires Valid()
      modifies this
      ensures Valid() && nextId == old(nextId)
      ensures id in old(posts) ==>
        posts == old(posts)[id := old(posts)[id].(title := title, body := body, updatedAt := now)]
      ensures id !in old(posts) ==> posts == old(posts)
      ensures resp == Redirect(EditPostPage(id), KeepCookie)
    {
      if id in posts {
        posts := posts[id := posts[id].(title := title, body := body, updatedAt := now)];
      }
      resp := Redirect(EditPostPage(id), KeepCookie);
    }

    /** DELETE /delete-post/:id: `deleteOne` removes the post if there is one, and the
        answer redirects to the dashboard either way. */
    method DeletePost(id: Id) returns (resp: Response)
      requires Valid()
      modifies this
      ensures Valid() && nextId == old(nextId)
      ensures posts == old(posts) - {id}
      ensures Contents() == Without(old(Contents()), id)
      ensures resp == Redirect(Dashboard, KeepCookie)
    {
      CollectionRemove(posts, nextId, id);
      posts := posts - {id};
      resp := Redirect(Dashboard, KeepCookie);
    }
  }
}
