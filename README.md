# A verified model of the blog's request decisions

The blog is an Express application over MongoDB (through Mongoose). It has a public post
listing with pagination, sorting and search, and an admin area. In the admin area one can
log in, register, create, edit and delete posts, and delete one's own account. This project
models the decisions that its route handlers make, together with the two collections they
read and write:

- `common.dfy`, module `Common`: document ids, redirect targets, cookie changes and the
  `Response` a handler sends.
- `user_model.dfy`, module `UserModel`: the `User` schema. Both of its paths are `required`,
  both have a `minlength` of 9, and `username` is `unique`. The module also holds the store
  invariant these constraints keep, `User.create` (validation, then the unique index) and
  `User.findOne`.
- `registration.dfy`, module `Registration`: POST /register. Six checks run in a fixed
  order and stop at the first failure; the email check is the unanchored pattern
  `\S+@\S+\.\S+`. The outcome of `create` is then mapped to 201, 409 or 500.
- `auth.dfy`, module `Auth`: `authMiddleware`, a class `Request` whose `userId` the gate
  sets before it calls `next`, and the POST /admin login decision. `jwt.verify`, `jwt.sign`
  and `bcrypt.compare` are function parameters. Their types give the one assumption
  the model makes, which "## Left out" states.
- `posts.dfy`, module `Posts`: the `posts` collection as a class over a map. It has the
  add-post length checks, edit without re-validation, and delete by id.
- `accounts.dfy`, module `Accounts`: the `users` collection as a class over a map, with
  registration and profile deletion.
- `admin_routes.dfy`, module `AdminRoutes`: a protected route. The gate runs first, and the
  handler runs only when `next` is called.
- `listing.dfy`, module `Listing`: the home page and GET /search.
  - The home page sorts newest first, shows page `p` as skip `6p-6`, limit 6, and computes
    `hasNextPage` and `nextPage`.
  - GET /search picks a sort from the `sort` query parameter.
- `search.dfy`, module `Search`: POST /search. The term keeps only `[a-zA-Z0-9 ]`, and a
  post matches when the term occurs in its title or its body, ignoring case.

Ids are natural numbers handed out by a counter. The model takes a collection's natural
order to be ascending id order, which is insertion order. This is the model's convention:
MongoDB does not promise any natural order.

Three behaviours of the code are worth knowing, and the model keeps them as written:

- The password length is checked before the username is searched for a digit
  (server/routes/admin.js:239-250).
- A missing or empty token and a token that fails verification both get status 401. The
  messages differ, though: "YOU HAVE TO LOGIN" for the first, "An error occured" for the
  second. So a tampered token can be told apart from a missing one by its message.
- Nothing makes `email` unique, and it is not even stored: the schema declares only
  `username` and `password`, and Mongoose's default strict mode drops the rest.

## Model

| member | source | states |
|---|---|---|
| `UserModel.SchemaErrors` | server/models/User.js:4-18 | validation reports no error exactly when both username and password have at least 9 characters; every length error carries the username message |
| `UserModel.ShortPasswordGetsUsernameMessage` | server/models/User.js:12-15 | a 1-8 character password is refused with "Username must be at least 9 characters", the username's message |
| `UserModel.Create` | server/models/User.js:5-15 | `create` inserts exactly when the document validates, the write goes through and the username is free; it fails with code 11000 exactly when the document validates and the write goes through, but the name is taken; it fails with the schema's errors exactly when validation fails; it fails with no code exactly when the document validates but the database refuses the write |
| `UserModel.CreateKeepsInvariant` | server/models/User.js:5-8 | an accepted insert keeps every stored user valid and all usernames distinct |
| `UserModel.FindUser` | server/routes/admin.js:59 | `findOne({ username })` returns the first user in natural order holding the name, and none when no user holds it |
| `UserModel.FindUserExact` | server/routes/admin.js:59 | in a store with unique usernames, `findOne` finds exactly the user holding the name, and nothing when nobody holds it |
| `Registration.EmailPatternMeansShape` | server/routes/admin.js:253 | the shortest-window email check accepts exactly the strings in which some whitespace-free stretch reads x@y.z with x, y and z non-empty |
| `Registration.EmailPatternUnanchored` | server/routes/admin.js:253 | the pattern is unanchored: text before and after an accepted address keeps it accepted |
| `Registration.EmailPatternNeeds` | server/routes/admin.js:253 | an accepted address has at least 5 characters, with an `@` somewhere before a `.` |
| `Registration.Check` | server/routes/admin.js:239-265 | the result is the first rule in handler order (username length, password length, digit, email, phone `+32`, confirmation) that the form breaks, and none only when no rule is broken |
| `Registration.RegisterResponse` | server/routes/admin.js:236-286 | 400 with the failed rule's message exactly when a check fails. After the checks: 201 "User Created" exactly when the user is stored; 409 "Username already in use" exactly when the error has code 11000 (the name is taken); 500 "Internal server error" exactly when `create` fails any other way (the schema refuses the document, or the database refuses the write) |
| `Registration.DigitInUsernameRefused` | server/routes/admin.js:248-250 | a username containing a digit is always answered 400 |
| `Registration.MismatchRefused` | server/routes/admin.js:263-265 | a confirmation different from the password is always answered 400 |
| `Registration.ShortUsernameAnswers500` | server/routes/admin.js:281-284 | a username of 5 to 8 characters passes the handler but fails the schema's minimum of 9, and the answer is 500 "Internal server error" |
| `Registration.BcryptHashNeverTooShort` | server/routes/admin.js:268 | with a 60-character bcrypt hash, the password's minlength never fails, so a long-enough username gets 201 or 409 unless the write itself fails |
| `Registration.SecondRegistrationConflicts` | server/routes/admin.js:281-282 | once a username has been registered, a second registration of it that passes the checks, with a write that goes through, is answered 409 "Username already in use" |
| `Accounts.UserStore.Register` | server/routes/admin.js:236-286 | the answer is `RegisterResponse`, with the database's refusal of the write as a parameter; only a 201 stores exactly one new user; every other answer leaves the collection unchanged; the store invariant is kept |
| `Accounts.UserStore.DeleteProfile` | server/routes/admin.js:379-401 | when `findByIdAndDelete` rejects, 500 "Internal Server Error" and no change; otherwise removes the user, answering 404 "User not found" when there was none and otherwise clearing the token cookie and redirecting home |
| `Auth.Gate` | server/routes/admin.js:16-30 | admits exactly when the cookie is truthy and verification succeeds, with the decoded user id; a missing or empty cookie gets "YOU HAVE TO LOGIN", a failed verification "An error occured" |
| `Auth.EmptyTokenLikeMissing` | server/routes/admin.js:17-21 | an empty cookie is treated exactly like a missing one |
| `Auth.Request.AuthMiddleware` | server/routes/admin.js:16-30 | when admitting, sets `req.userId` to the decoded id, calls `next` once and sends nothing; when denying, sends 401 and neither sets `userId` nor calls `next` |
| `Auth.Login` | server/routes/admin.js:55-78 | every failed login is the same 401 "Username - Password DOES NOT MATCH"; a success signs the found user's id and sets it as the cookie, redirecting to the dashboard |
| `Auth.LoginSucceedsIff` | server/routes/admin.js:59-73 | in a valid store, login succeeds exactly when some user holds the name and the password matches that user's hash; an unknown username gets the same 401 |
| `Auth.LoginTokenPassesGate` | server/routes/admin.js:71-72 | if verification undoes signing, the token set at login is admitted by the gate as the user who logged in |
| `Posts.AddPostResponse` | server/routes/admin.js:143-152 | 200 exactly when title and body both have at least 9 characters; the title is checked before the body; otherwise 400 with the failing field's message |
| `Posts.PostStore.AddPost` | server/routes/admin.js:136-157 | on 200 exactly one post with the given title and body is appended to the collection; on 400 the collection is unchanged |
| `Posts.PostStore.EditPost` | server/routes/admin.js:192-207 | changes only the title, body and `updatedAt` of the addressed post, with no length check; an unknown id changes nothing; the answer redirects to the edit page |
| `Posts.PostStore.DeletePost` | server/routes/admin.js:294-303 | removes the post with the id if there is one, keeps every other post and their order, and redirects to the dashboard either way |
| `Posts.CollectionInOrder` | server/routes/main.js:94 | the collection's natural order lists every stored post once, in ascending id order, and nothing else |
| `Posts.CollectionRemove` | server/routes/admin.js:297 | deleting an id removes just that post from the natural order and keeps the others' order |
| `Posts.WithoutKeeps` | server/routes/admin.js:297 | after a delete, the listing holds exactly the posts whose id is not the deleted one |
| `AdminRoutes.Serve` | server/routes/admin.js:16-30 | a denied request gets 401, `req.userId` is left as it was, and neither collection changes; an admitted one runs the handler with `req.userId` set. Add-post answers as `AddPostResponse` and appends exactly one post on 200. Edit rewrites title, body and `updatedAt` of a known id, changes nothing for an unknown one, and redirects to the edit page. Delete-post removes the id. Profile delete answers 500 and changes nothing when the delete rejects; otherwise it removes the caller and answers 404 or clears the cookie. A post route never changes `users`; profile delete never changes `posts` |
| `Listing.InsertSorted` | server/routes/main.js:24 | inserting into a sequence sorted on `createdAt` keeps it sorted |
| `Listing.SortByCreated` | server/routes/main.js:24 | the `createdAt` sort returns a sorted permutation of its input |
| `Listing.SortedListing` | server/routes/main.js:86-94 | `sort=newest` sorts newest first, `sort=oldest` oldest first, and any other value leaves the order alone; in every case the result is a permutation of all posts |
| `Listing.Window` | server/routes/main.js:24-27 | page `p` shows the posts at positions `6(p-1)` onwards, in order: exactly `min(6, n - 6(p-1))` of them when the page starts before the end `n`, and none exactly when it starts past it |
| `Listing.PageCount` | server/routes/main.js:31 | `Math.ceil(count / 6)` is the least number of 6-post pages that hold `count` posts |
| `Listing.HasNextPage` | server/routes/main.js:30-31 | `page + 1 <= ceil(count / 6)` holds exactly when `6 * page < count` |
| `Listing.HomePage` | server/routes/main.js:12-48 | the page defaults to 1; its posts are the window of the newest-first order; `nextPage` is `page + 1` exactly when `6 * page < count`, and null otherwise |
| `Listing.NextPageNotEmpty` | server/routes/main.js:29-38 | a next page is offered exactly when it has posts to show |
| `Listing.PageOfPosition` | server/routes/main.js:25-26 | position `k` is on page `p` exactly when `p = k / 6 + 1`, so the windows of distinct pages are disjoint |
| `Listing.PagesArePrefix` | server/routes/main.js:24-27 | pages 1 to `m` put together are the first `6m` posts, in order |
| `Listing.PagesCoverAll` | server/routes/main.js:24-31 | pages 1 to `ceil(count / 6)` put together are exactly all posts, each once |
| `Listing.TenPosts` | server/routes/main.js:21-38 | with ten posts, page 1 shows the six newest and offers page 2; page 2 shows the other four, in the same order, and offers none |
| `Search.Sanitize` | server/routes/main.js:123 | the sanitised term holds only ASCII letters, digits and spaces, is no longer than the input, and equals the input when that is already clean |
| `Search.SanitizeIdempotent` | server/routes/main.js:123 | sanitising twice is sanitising once |
| `Search.SanitizeAppend` | server/routes/main.js:123 | sanitising works piecewise, so the kept characters stay in their original order |
| `Search.SanitizeKeepsAllowed` | server/routes/main.js:123 | every allowed character is kept as often as it occurs, and no other character survives |
| `Search.SanitizeDropsBrackets` | server/routes/main.js:123 | the angle brackets around a tag are removed and its content is sanitised as it stands |
| `Search.SanitizeScriptTag` | server/routes/main.js:123 | `<script>` sanitises to `script` |
| `Search.Filter` | server/routes/main.js:125-130 | a post is kept exactly when it is among the input posts and the term occurs, ignoring case, in its title or its body |
| `Search.SearchPosts` | server/routes/main.js:122-130 | a post is returned exactly when the sanitised term occurs, ignoring case, in its title or its body |
| `Search.SearchKeepsOrder` | server/routes/main.js:125-130 | results come in the collection's order |
| `Search.EmptyTermMatches` | server/routes/main.js:127-128 | the empty pattern matches every post |
| `Search.EmptyTermListsAll` | server/routes/main.js:123-130 | a term with nothing left after sanitising returns every post, in order |
| `Search.SearchSanitizedTerm` | server/routes/main.js:123 | searching with a raw term and with its sanitised form gives the same result |
| `Search.FoundIgnoringCase` | server/routes/main.js:127 | a post whose title holds the sanitised term in any letter case is found |

## Left out

- `Auth.Gate`: `jwt.verify` is typed `string -> Option<Id>`, so every token that verifies
  carries a user id. In the source, a verified token whose payload has no `userId` is
  admitted with `req.userId` undefined (server/routes/admin.js:24-26); the model does not
  capture that case.
- The cryptography is left out. `jwt.verify`, `jwt.sign` and `bcrypt.compare` are
  parameters with no properties; only `LoginTokenPassesGate` assumes, in its requires,
  that verification undoes signing and that a signed token is never empty. `bcrypt.hash` is salted and random, so its result is a
  parameter. Token expiry and the `iat` claim are not modelled.
- Express, views, cookies and timestamps are abstracted:
  - Routing and view rendering are left out: the GET pages, the dashboard, GET /post/:id
    and GET /about.
  - So are both `/logout` handlers, which only clear the cookie and redirect.
  - Cookie attributes are left out; a cookie is modelled only as present or absent, plus its
    value.
  - `Date.now()` becomes the parameter `now`.
- GET /profile and POST /profile (view and update of one's own profile) are not part of
  this model. `findByIdAndUpdate` skips schema validation, so a profile update can break the
  store invariant. The model does not allow for this.
- Handler paths that only log and send nothing are left out. Examples: a failed lookup at
  login, an invalid ObjectId in `/edit-post/:id`, a failed aggregate on the home page.
- The TypeErrors thrown when a body field is missing are left out.
- `Registration.RegisterResponse`: a refused write is a boolean parameter, `writeFails`. The
  model does not say why the database refuses a write.
- `Posts.PostStore.AddPost`: `Post.create` is taken to succeed. The Post model is not part of
  this model, so its validators and its 500 path are left out. Both timestamps are set to
  `now`.
- The 201 answer of POST /register also echoes the created user document. The model keeps
  only its status and message.
- `Listing.HomePage`: the page number is a positive integer. JavaScript's coercion of
  missing-but-falsy, non-numeric, zero or negative `page` strings is left out.
- `Listing.HomePage`: the aggregate and the count are read from one snapshot. In the source
  they are two separate awaits, so under concurrent writes they can disagree.
- `Listing.SortByCreated` stands for MongoDB's sort. MongoDB does not fix the order of posts
  with equal `createdAt`. The model breaks such ties with an insertion sort, which gives the
  same order on every request.
- `Listing.HomePage`: `PagesCoverAll` and `PageOfPosition` (each post on exactly one page)
  rely on that fixed order. In the source they hold only when the `createdAt` values are
  distinct: MongoDB documents that skip and limit over a sort on tied values can return
  inconsistent pages.
- `Search.Filter`: case folding is ASCII only. This is exact for JavaScript's non-Unicode
  `i` flag with an ASCII pattern. MongoDB's own regex engine may also fold some non-ASCII
  letters, such as the Kelvin sign, and the model does not capture that.
- String lengths count Unicode scalar values, not UTF-16 code units.
- `\s` is modelled as JavaScript's white-space and line-terminator set.
- Concurrency between requests is left out. So is the asynchronous building of the unique
  index.
