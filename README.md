# Live chat backend: request handlers, modelled in Dafny

This project models the request-handler layer of a chat and social backend
written for Node.js with Express and Mongoose. The layer covers:

- user signup and login, which set the online flag;
- admin registration, guarded by a shared secret, and admin login;
- the bearer-token guard on admin routes;
- posts with a like toggle and comments;
- direct messages, with a find-or-create of the two users' chat, and chat
  messages;
- the server's cross-origin (CORS) policy;
- the admin dashboard counters and record removal.

The document store is an in-memory table. `Store.Db` is a class with one
map from id to record per collection (users, admins, posts, chats,
messages). It also has an id counter, so a new record never reuses an id.
`Db.Valid()` says that every stored id is below the counter. Each handler
is modelled as one atomic step, so `Valid()` is an invariant of handlers
that do not interleave. The like toggle keeps a post's likes free of
duplicates when they were free of them, and it copes with a duplicate
left by two interleaved likes.

Each source file is one module:

| module | file |
|---|---|
| `PostController` | `post_controller.dfy` |
| `Server` | `server.dfy` |
| `AuthController` | `auth_controller.dfy` |
| `AuthRoutes` | `auth_routes.dfy` |
| `MessageRoutes` | `message_routes.dfy` |
| `MessageController` | `message_controller.dfy` |
| `AdminAuthMiddleware` | `admin_auth_middleware.dfy` |
| `AdminController` | `admin_controller.dfy` |

`Common` and `Store` hold the shared vocabulary and the table.

How handlers are modelled:

- A handler that writes the store is a method on a `Db`, with `modifies db`.
  Its `ensures` give the reply and the new contents of every collection it
  touches. They also say that the other collections are unchanged.
- Validation chains are pure functions returning a `Check`. So are the like
  toggle, the profile merge, origin normalisation, the token split, the
  admin guard and the queries. Lemmas state their properties.
- A request field is `Option<string>`, where `None` means the field is
  absent. JavaScript's `!field` is modelled as `!Truthy(field)`, which is
  true for an absent field and for the empty string.
- `findOne` returns the first match in natural order. It is modelled as the
  matching record with the least id (`Common.Least`).
- Queries without a sort return ids in ascending (insertion) order. The
  conversation query sorts by `createdAt`, and ties go to the smaller id.

Inputs that stand for outside code or the environment:

- password comparison: `matches(stored, candidate)`;
- the token verifier: `verify(token)`, the id a valid token carries;
- environment variables: `adminSecret`, `frontendUrl`, `adminFrontendUrl`;
- the clock: `now`;
- the socket server's live connection count: `socketClients`;
- the case-insensitive search match: `matchesSearch(user, search)`;
- the requester's id: `me`, as set by the user authentication middleware.

Behaviour of the code, as written, that the model keeps:

- With `FRONTEND_URL` unset, the normalised value is `""`, and `""` stays in
  the allow-list.
- The header test only checks for the prefix `Bearer`, so `BearerX y`
  passes it. `Bearer` with no second field yields no token, and the reply is
  "token failed".
- If the requester's account is gone, logout sets a field of a missing
  (null) record. The handler then replies with its generic 500 error.
- A message sent through the message controller has no receiver. Marking it
  read fails the receiver comparison in the same way (500, not 403).
- `inactiveUsers` subtracts open socket connections from accounts. It goes
  negative when there are more connections than accounts
  (`AdminController.InactiveGoesNegative`).
- Profile update may set an email that another account already uses.
- The repository's real-time presence and relay core lives in
  `socket/socket.js`, which is not part of this model. Only its connection
  count appears, as an input.

## Model

| member | source | states |
|---|---|---|
| `PostController.CreatePostCheck` | controllers/postController.js:8-11 | a post passes iff its content or its image is truthy; otherwise 400 "Post must have content or image" |
| `PostController.CreatePost` | controllers/postController.js:4-20 | a rejected post stores nothing; an accepted one stores exactly one new post owned by the requester, with no likes and no comments, and replies 201 |
| `PostController.LikePost` | controllers/postController.js:38-53 | a missing post gives 404 "Post not found" and changes no post; otherwise only that post's likes change, to the toggled sequence, and likes free of duplicates stay free of them |
| `PostController.RemoveAll` | controllers/postController.js:47 | an id is in the filtered likes iff it was in the likes and is not the requester |
| `PostController.RemoveAllKeepsOrder` | controllers/postController.js:47 | the filtered likes are a subsequence of the original: the other ids keep their order |
| `PostController.RemoveAllCounts` | controllers/postController.js:47 | the filter removes every occurrence of the requester and keeps each other id as often as before |
| `PostController.UnlikeRemovesRequester` | controllers/postController.js:46-47 | when the requester had liked the post, the toggle removes every occurrence, keeps the other ids' counts and keeps their order |
| `PostController.LikeAppendsRequester` | controllers/postController.js:46-49 | when the requester had not liked the post, the toggle appends the requester after the unchanged earlier likes |
| `PostController.ToggleFlipsMembership` | controllers/postController.js:46-50 | the requester's membership in likes is negated; every other id's membership is unchanged |
| `PostController.ToggleTwiceRestores` | controllers/postController.js:46-50 | liking, then unliking, a post the requester had not liked restores the original likes exactly |
| `PostController.TogglePreservesNoDuplicates` | controllers/postController.js:46-50 | if no id appears twice in likes, none does after the toggle |
| `PostController.AddComment` | controllers/postController.js:59-81 | a missing post gives 404; a comment without text fails the schema's required check and stores nothing; otherwise exactly one comment `{requester, text}` is appended, and earlier comments and other posts are unchanged |
| `Server.NormalizeOrigin` | server.js:18 | an undefined or empty URL gives ""; a trailing "/" is removed exactly once; otherwise the URL is unchanged |
| `Server.NormalizedEndsWithoutSlash` | server.js:18 | unless the URL ended in two slashes, the normalised origin does not end in "/" |
| `Server.AllowedOrigins` | server.js:20-27 | the allow-list is the four deployed origins, in order, then the normalised front-end and admin front-end URLs |
| `Server.CorsOrigin` | server.js:30-39 | a request is allowed iff it has no origin or its origin is in the allow-list; otherwise it is refused with "Not allowed by CORS" |
| `Server.ConfiguredFrontendAllowed` | server.js:18-35 | a front end configured with or without a trailing slash is allowed under its slash-free origin |
| `Server.UnconfiguredAllowsOnlyDeployed` | server.js:20-35 | with neither front-end URL set, a non-empty origin is allowed iff it is one of the four deployed origins |
| `AuthController.RegisterUserCheck` | controllers/authController.js:8-17 | missing name, email or password gives 400 "Please Enter all the Fields"; only after that, an email in use gives 400 "User already exists"; otherwise the request passes |
| `AuthController.AdminFlag` | controllers/authController.js:19-22 | the new account is an admin iff the secret key is truthy and equals the configured secret; never when no secret is configured |
| `AuthController.RegisterUser` | controllers/authController.js:4-34 | a rejected registration creates no user; an accepted one stores exactly one new user with the given fields and the derived admin flag, and replies 201 |
| `AuthController.RegisterTwiceRefused` | controllers/authController.js:13-24 | after a registration succeeds, the same request is refused as a duplicate |
| `AuthController.AuthUser` | controllers/authController.js:44-62 | login succeeds iff the first user with the email exists and the password matches; every other outcome of a boolean comparison is 401 "Invalid Email or Password" |
| `AuthController.UnknownEmailRefused` | controllers/authController.js:48-61 | an email no user has is refused with 401 |
| `AuthController.MergeProfile` | controllers/authController.js:76-82 | name, email and pic are replaced only by a truthy new value; the password only when one is supplied; the admin and online fields are kept |
| `AuthController.MergeProfileIdempotent` | controllers/authController.js:76-82 | applying the same profile update twice equals applying it once |
| `AuthController.EmptyProfileKeepsUser` | controllers/authController.js:76-82 | an update that supplies nothing truthy leaves the account unchanged |
| `AuthController.UpdateUserProfile` | controllers/authController.js:73-97 | an unknown user gives 404 "User Not Found" with nothing changed; otherwise only that user's record changes, to the merged profile |
| `AuthController.AllUsers` | controllers/authController.js:104-116 | the directory lists exactly the users other than the requester that match the search (all of them without a search), and never the requester |
| `AuthRoutes.SignupCheck` | routes/authRoutes.js:22-34 | a missing field gives 400; then a password shorter than 6 gives 400, checked before the email lookup; then an email in use gives 400; otherwise it passes |
| `AuthRoutes.Signup` | routes/authRoutes.js:17-50 | a rejected signup creates no user; an accepted one stores exactly one new user with the given name, email and password, and replies 201 |
| `AuthRoutes.LoginDecision` | routes/authRoutes.js:68-84 | a missing email or password gives 400; an unknown email and a wrong password both give 401 "Invalid email or password"; otherwise the login succeeds for the user with that email |
| `AuthRoutes.Login` | routes/authRoutes.js:63-97 | replies with the login decision; a refused login changes no user; a successful one sets only that user's `isOnline` to true and `lastSeen` to now |
| `AuthRoutes.Logout` | routes/authRoutes.js:120-127 | sets only the requester's `isOnline` to false and `lastSeen` to now; a requester with no account gets the handler's 500 error |
| `MessageRoutes.SendCheck` | routes/messageRoutes.js:14-16 | a send passes iff `receiverId` and `content` are both given; otherwise 400 "Receiver and content are required" |
| `MessageRoutes.NewDirectMessage` | routes/messageRoutes.js:19-24 | the stored message has the requester as sender, `receiverId` as receiver and the content, is unread, and its type defaults to "text" |
| `MessageRoutes.FindDirectChat` | routes/messageRoutes.js:31-34 | finds a non-group chat with both users among its participants, or reports that none exists |
| `MessageRoutes.Send` | routes/messageRoutes.js:10-46 | a rejected send stores neither a message nor a chat; otherwise exactly one message is stored; with no chat for the pair, exactly one chat `[requester, receiver]` is created, with the message as its last message; with one, only its `lastMessage` changes |
| `MessageRoutes.SendLeavesUsableChat` | routes/messageRoutes.js:31-44 | after a send, the pair's chat lookup finds the reused or newly created chat, and its last message is the new one |
| `MessageRoutes.Conversation` | routes/messageRoutes.js:58-66 | returns exactly the messages between the two users in either direction, each once, ordered by `createdAt` ascending |
| `MessageRoutes.ConversationSymmetric` | routes/messageRoutes.js:58-63 | the conversation of a with b is the conversation of b with a |
| `MessageRoutes.MarkRead` | routes/messageRoutes.js:103-120 | a missing message gives 404; a message with no receiver gives 500; a requester who is not the receiver gives 403 and the message is unchanged; the receiver marks it read with `readAt` = now, and nothing else changes |
| `MessageController.SendMessageCheck` | controllers/messageController.js:9-12 | a send passes iff `content` is truthy and `chatId` is given; otherwise 400 |
| `MessageController.SendMessage` | controllers/messageController.js:5-33 | a rejected send stores nothing; otherwise exactly one message is stored, with the requester as sender and `chatId` as chat, and the named chat's `latestMessage` becomes that message, as the handler attempts it |
| `MessageController.AllMessages` | controllers/messageController.js:39-45 | returns exactly the messages whose chat is the requested chat |
| `MessageController.PostedMessageListed` | controllers/messageController.js:14-41 | a message posted into a chat is listed with that chat, not with any other, and the chat's earlier messages stay listed |
| `AdminAuthMiddleware.Split` | middleware/adminAuthMiddleware.js:12 | splitting on single spaces gives at least one field, and no field holds a space |
| `AdminAuthMiddleware.JoinSplit` | middleware/adminAuthMiddleware.js:12 | joining the split fields with spaces gives back the header |
| `AdminAuthMiddleware.SplitJoin` | middleware/adminAuthMiddleware.js:12 | splitting space-free fields joined with spaces gives back the fields |
| `AdminAuthMiddleware.BearerToken` | middleware/adminAuthMiddleware.js:12 | the token is the second space-separated field, and is absent when there is none |
| `AdminAuthMiddleware.TokenOfBearerHeader` | middleware/adminAuthMiddleware.js:12 | the token of "Bearer t" is t |
| `AdminAuthMiddleware.ProtectAdmin` | middleware/adminAuthMiddleware.js:4-33 | a missing header, or one not starting with "Bearer", gives 401 "Not authorized, no token"; otherwise the request proceeds as the admin iff the token verifies and names an existing admin; every other case, the unknown admin included, gives 401 "Not authorized, token failed" |
| `AdminAuthMiddleware.ValidBearerProceeds` | middleware/adminAuthMiddleware.js:7-22 | a "Bearer t" header whose token verifies for an existing admin lets the request through as that admin |
| `AdminController.RegisterAdminCheck` | controllers/adminController.js:13-27 | a missing field gives 400; then a wrong secret gives 401 "Invalid Admin Secret"; then an email in use gives 400 "Admin already exists"; otherwise it passes |
| `AdminController.NoSecretNoAdmins` | controllers/adminController.js:18-21 | with no secret configured, no admin registration passes |
| `AdminController.RegisterAdminTwiceRefused` | controllers/adminController.js:23-29 | after an admin registration succeeds, the same request is refused as a duplicate |
| `AdminController.RegisterAdmin` | controllers/adminController.js:9-38 | a rejected registration creates no admin; an accepted one stores exactly one new admin with the given fields, and replies 201 |
| `AdminController.AuthAdmin` | controllers/adminController.js:52-65 | admin login succeeds iff the first admin with the email exists and the password matches; every other outcome of a boolean comparison is 401 |
| `AdminController.GetStats` | controllers/adminController.js:73-85 | the totals are the collection sizes; `activeUsers` is the socket client count, or 0 with no socket server; `inactiveUsers` = `totalUsers` - `activeUsers` |
| `AdminController.InactiveGoesNegative` | controllers/adminController.js:79-85 | with more socket connections than users, `inactiveUsers` is negative |
| `AdminController.GetAllUsers` | controllers/adminController.js:100-112 | lists exactly the users that match the search (all users without one) |
| `AdminController.AdminListingAddsOnlyRequester` | controllers/adminController.js:100-112 | the admin listing is the user directory plus, when they match, the requester |
| `AdminController.DeleteUser` | controllers/adminController.js:118-127 | an existing user is removed, and exactly that record; an unknown id gives 404 "User not found" with nothing removed |
| `AdminController.DeletePost` | controllers/adminController.js:145-154 | an existing post is removed, and exactly that record; an unknown id gives 404 "Post not found" with nothing removed |

## Left out

- Presence and relay (`socket/socket.js`): this file is not part of this model. The socket server appears only as its connection count, an input of `GetStats`.
- `getPosts`, `getAllPosts`, `getAllGroups` and `GET /chats/all`: each of these is a store query with `populate` and a sort on the `createdAt` or `updatedAt` timestamps. The model's post and chat records do not carry those timestamps.
- Mongoose behaviour: `populate`, the case-insensitive regex search (an input predicate instead), `trim` on post content, and `CastError` replies for malformed ids. Also left out: the stripping of fields the schema lacks, and termination with a 500 reply when the store itself fails.
- Password hashing, `matchPassword`/`comparePassword` and `generateToken`: these are outside code, given as inputs. Success replies carry the record or its id, not the token or the populated record.
- `AuthUser`, `AuthAdmin`: the password comparison `matches` is assumed to return a boolean for every input, including an absent password. Neither handler checks for a missing password first, and the usual bcrypt comparison throws on `undefined` instead of returning false. That error goes to `next(error)` without a 401 status, a path the model does not capture.
- `SendMessage`: the `latestMessage` clause models the update the handler attempts. The chat schema in `models/Chat.js` has no `latestMessage` path, and a strict Mongoose schema discards the field, so the stored chat changes only in its `updatedAt` timestamp.
- `LikePost`, `Send`, `RegisterUser`, `Signup`, `RegisterAdmin`: each handler is modelled as one atomic step. In the program each awaits between its check and its write, so two requests can interleave. Two likes by one user can then both push and store that user's id twice, which a later unlike removes in full. Two first sends between the same pair can create two direct chats. Two registrations with one email can both pass the duplicate check and store two accounts with that email.
- The "Failed to Create" branches: the model's inserts always succeed, so these branches cannot be reached.
- Request fields of other JSON types (numbers, objects): every body field is a string or absent.
- Looking up an absent email matches no record: every stored user and admin has a string email.
- `AddComment`: the reply status for the failed schema validation is modelled as 500. The error middleware that picks this status is not part of this model.
- `SignupCheck`: the password length counts Unicode scalar values. JavaScript's `length` counts UTF-16 code units, so the two differ for characters outside the Basic Multilingual Plane.
- `Date.now()`: the clock is the input `now`. Its monotonicity is not used.
- Express wiring, the route tables, the `protect` middleware, uploads, logging, and the async `next(error)` mechanics.
- Defaults from the user schema for fields the handlers do not set: `models/User.js` is not part of this model. A new user is assumed offline, with no `lastSeen`, not an admin if signed up through the routes, and with no picture unless one is given.
