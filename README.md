# Likes and identity of a small social backend, in Dafny

This project models the two pieces of logic of a small FastAPI backend:

- **Identity** (`api/users.py`): registering a user against a username-unique
  user table, checking credentials, building the access token's claim set
  (`sub`, `id`, `exp` as in RFC 7519, sections 4.1.2 and 4.1.4), turning a
  bearer token back into a user id, the login outcome mapping and the `/me`
  profile.
- **Interactions** (`api/interactions.py`): the like toggle, which adds or
  removes the `LikedPost` row of a (user, post) pair and moves the post's
  denormalised `like_count` with it, and the list of who liked a post.

The database session is replaced by explicit tables: the user table as a
sequence of `User` rows, the posts' `like_count` column as a map from post id,
and the `LikedPost` rows as a sequence of `Like` rows, both sequences in
storage order. A `.first()` query is modelled as returning the earliest
matching row; the queries have no `order_by`, so this is a choice of the
model, and it decides nothing when the filtered columns are unique. The two
handlers that change the database are methods of classes (`UserStore`,
`InteractionStore`) whose fields those handlers update; each is proved
against a function on table values (`Register`, `Toggle`), and the properties
of those functions are lemmas. The read-only handlers are functions.

Password hashing (bcrypt), token signing and checking (JWT), and the text
form of UUIDs come from libraries outside the model. They are the fields of
a `Config` value (hash, verify, encode, decode, showId, parseId) that every
operation receives, as a configuration built once at startup would be. The
clock is the parameter `now` (seconds), and the fresh UUIDs that new rows
receive are parameters too.

Errors are values: `Result<T> = Ok(value) | Err(status)` with
`Status = NotFound | Unauthorized | Conflict | Internal` (404, 401, 409, 500).
`Internal` is an exception the handler does not catch.

Files: `common.dfy` (module `Common`), `identity.dfy` (module `Identity`),
`interactions.dfy` (module `Interactions`).

Three behaviours of the code a reader might not expect:

- An `id` claim that is present but not UUID text makes `uuid.UUID` raise an
  error that `get_current_user` does not catch, so the request fails with 500
  (`Internal`), not 401.
- The `id` claim is the user id as text (`str(user_id)`), not a number.
- In `get_me`, the check `if not user_id` can never fire (a UUID object is
  always true) and the `except JWTError` never sees an error, because
  `get_current_user` already turns decoding failures into 401. `GetMe` has
  neither branch.

## Model

| member | source | states |
|---|---|---|
| `Common.FirstIndex` | api/interactions.py:23-28 | the `.first()` of a filtered query, modelled as the earliest matching row: None exactly when no row matches, otherwise a matching row with no matching row before it |
| `Identity.FindByUsername` | api/users.py:37 | the lookup returns a row with that username, None exactly when no row has it |
| `Identity.FindById` | api/users.py:104-105 | the lookup returns a row with that id, None exactly when no row has it |
| `Identity.FindByUsernameUnique` | api/users.py:37 | in a table with unique usernames the lookup returns the one row with that username |
| `Identity.FindByIdUnique` | api/users.py:104-105 | in a table with unique ids the lookup returns the one row with that id |
| `Identity.Register` | api/users.py:55-69 | 409 exactly when the username is taken, and then the table is unchanged; 500 exactly when the username is free but the fresh id is already a key, with no change; otherwise exactly one row is appended, holding `hash(password)` rather than the password, and its id is returned; unique usernames and ids are preserved |
| `Identity.UserStore.CreateUser` | api/users.py:55-69 | the method's result and new table are those of `Register` on the old table, and it keeps the table's uniqueness invariant |
| `Identity.RegisterTwiceConflicts` | api/users.py:59-63 | after a successful registration, registering the same username again is refused with 409 |
| `Identity.AuthenticateUser` | api/users.py:36-44 | 404 exactly when no row has the username; `False` only when a row with it fails `verify`; an accepted result is a row with that username whose hash verifies the password |
| `Identity.AuthenticateKnownUser` | api/users.py:36-44 | with unique usernames the outcome is that row when `verify` succeeds and `False` when it fails, never 404 |
| `Identity.RegisterThenAuthenticate` | api/users.py:42-44 | right after registering, authenticating the username accepts the new row when the password verifies against the stored hash and returns `False` otherwise |
| `Identity.AccessClaims` | api/users.py:47-50 | the claim set has exactly the keys `sub`, `id`, `exp`: the username, the id as text, and `now + expires_delta` |
| `Identity.CreateAccessToken` | api/users.py:47-51 | under a codec that decodes what it signed until expiry, the token decodes to exactly the claim set of `AccessClaims` at every time before `now + expires_delta`, and is refused at every time from then on |
| `Identity.GetCurrentUser` | api/users.py:86-94 | 401 exactly when the token does not decode or its `id` claim is missing or null; a returned id is the parse of the decoded `id` claim, and whenever that claim is text that parses, its parse is returned; every other failure is a 500 |
| `Identity.TokenRoundTrip` | api/users.py:86-94 | under a codec that decodes what it signed until expiry, resolving a freshly issued token gives back the user id before `exp` and 401 from `exp` on |
| `Identity.Login` | api/users.py:72-83 | 404 exactly for an unknown username, 401 exactly when the password is rejected, otherwise a token for a row with that username that verifies the password, with claims for a 20-minute lifetime |
| `Identity.GetMe` | api/users.py:97-120 | errors of token resolution pass through; 404 exactly when no row has the resolved id, and a profile whenever a row has it; a result is exactly `{id, username, name, profile_image}` of the row with that id |
| `Identity.LoginThenMe` | api/users.py:97-117 | logging in with a verifying password and presenting the token to `/me` gives that user's profile before the token expires and 401 afterwards |
| `Interactions.FindLike` | api/interactions.py:23-28 | the query finds a row of the (user, post) pair, and finds none exactly when the pair has no row |
| `Interactions.Remove` | api/interactions.py:36 | deleting row `i` keeps every other row, in order |
| `Interactions.Toggle` | api/interactions.py:19-42 | unknown post: 404 and no change; pair without a row: exactly the row `(id, user, post)` is added and the counter rises by 1; pair with a row: that row is removed and the counter drops by 1; the result is the post id; a primary-key clash is a 500 with no change; success exactly when the post exists and either the pair has a row or the fresh key is unused |
| `Interactions.InteractionStore.LikePost` | api/interactions.py:13-42 | the method's result and new tables are those of `Toggle` on the old tables, and it keeps the tables consistent |
| `Interactions.ToggleFlips` | api/interactions.py:30-36 | a successful toggle flips whether the pair has a like row, and changes the post's row count by exactly the amount it changes its counter |
| `Interactions.ToggleFrame` | api/interactions.py:30-42 | the set of posts is unchanged, other posts' counters are unchanged, and every other (user, post) pair keeps exactly its rows |
| `Interactions.TogglePreservesConsistency` | api/interactions.py:30-36 | a toggle keeps one row per pair, distinct row keys, and every post's counter equal to its number of like rows |
| `Interactions.ToggleTwiceFromUnliked` | api/interactions.py:30-36 | two toggles from "not liked" both succeed and restore the tables exactly |
| `Interactions.ToggleTwiceFromLiked` | api/interactions.py:30-36 | two toggles from "liked" both succeed, restore every counter, and end with exactly the old rows minus the pair's row plus the re-created row `(id2, user, post)` at the end (same multiset of (user, post) pairs) |
| `Interactions.ToggleEachLikes` | api/interactions.py:30-33 | when distinct users who do not like a post each toggle it once with distinct fresh keys, the rows become exactly the old rows followed by one row `(ids[k], users[k], post)` per user in order, the counter map changes only in that post, which rises by their number, each of them has a like row, and the tables stay consistent |
| `Interactions.JoinUsers` | api/interactions.py:53 | a like row joins with exactly the users whose id it references |
| `Interactions.JoinUsersOne` | api/interactions.py:53 | with unique user ids a row whose user exists joins with that one user |
| `Interactions.GetHowLiked` | api/interactions.py:45-57 | every entry belongs to the post and carries the name, username and profile image of a user joined with a like row of the post, plus that row's key and post id; every such (user, row) pair has its entry |
| `Interactions.HowLikedOnePerRow` | api/interactions.py:51-57 | with unique user ids and existing users, the entries' like keys are exactly the post's row keys, as a multiset, so there is one entry per like row |
| `Interactions.HowLikedMatchesCounter` | api/interactions.py:51-57 | in consistent tables the liker list of a post is as long as its `like_count` |
| `Interactions.HowLikedNewRows` | api/interactions.py:51-55 | with unique user ids, the liker list of freshly created rows has one entry per row, carrying the profile of the row's user and the row's key |
| `Interactions.FreshPostLikers` | api/interactions.py:13-57 | when distinct existing users each like a post nobody liked, the counter equals their number and the liker list is, as a multiset, exactly one entry per user with that user's name, username and profile image and the key of the row the like created |

## Left out

- FastAPI routing, `Depends` and `HTTPException`/`JSONResponse` mechanics: the interaction handlers receive the already resolved user id, and the 401 they give for a bad token is that of `GetCurrentUser`. Error `detail` messages are not modelled.
- The ORM session (`add`, `commit`, `refresh`, `exec`): the toggle's row change and counter change, including the `commit` before `add(post_db)` in `like_post`, are one atomic update.
- bcrypt and the `verify_password` and `get_password_hash` wrappers: `Config.hash` and `Config.verify` are opaque. bcrypt salts each hash at random; the model's `hash` is a function, which no stated property depends on.
- JWT signing and checking: `Config.encode` and `Config.decode` are opaque. The round-trip lemmas assume `HonestCodec`: a signed claim set decodes to itself strictly before its `exp` (RFC 7519, section 4.1.4) and fails afterwards. The library's own leeway rule is not modelled.
- Secret and algorithm loading from the environment, and the clock: `now` is a parameter, in whole seconds.
- UUID generation and UUID text: fresh ids are parameters, and `Config.showId` and `Config.parseId` are opaque.
- Concurrent toggles and the read-then-write race in `like_post`: each toggle is one atomic step.
- The order of the liker list: the backend does not fix one, so properties of `GetHowLiked` are stated per entry and as multisets.
- Integer widths: `like_count` is an unbounded integer.
- Which row `.first()` returns: the user and like queries have no `order_by`, so the database may return any matching row; the model returns the earliest in storage order. This matters only for a table that holds duplicate usernames, duplicate user ids or two rows of one (user, post) pair, which the invariants `UniqueUsers` and `Consistent` exclude.
- `database.py`, which holds the table schema, is not part of this model. The model assumes that `id` is the primary key of the user and like tables, so reusing a key fails the commit.
