# Auth and posts services of a NestJS blog API, modelled in Dafny

This project models the two services that carry the logic of a small NestJS
blog API.

- **`AuthService`** (`auth.dfy`, module `Auth`) parses the `Authorization:
  Bearer <token>` header and validates JWTs. It also handles sign-up, login,
  registration and the admin listing of users, over a users table keyed by
  email.
- **`PostsService`** (`posts.dfy`, module `Posts`) creates, lists, reads,
  updates and removes posts, over a posts table keyed by post id. Only a
  post's author, or a caller whose role is `"admin"`, may update or remove it.

Supporting modules:

- `Http` (`http.dfy`) holds the NestJS exceptions the services throw, with
  the status each one answers with. It also holds `Option` and `Result`.
- `Strings` (`strings.dfy`) holds JavaScript's `startsWith`, `split` with a
  one-character separator, and the `join` that undoes it.
- `Pagination` (`pagination.dfy`) holds the `skip = (page - 1) * limit,
  take = limit` arithmetic of the posts listing.

Both services are classes whose map-valued field is the table. A `Valid()`
invariant says every row is filed under its own key, so emails and post ids
are unique. Methods that write the table state the complete new table in
terms of `old(...)`; that includes "nothing else changes". Operations that
only read are functions (`Login`, `FindOne`, `ValidateToken`,
`ExtractTokenFromHeaders`) or read-only methods with loops (`FindAll` and
the newest-first ordering).

The service's collaborators are `const` function fields, given to the
constructor:

- bcrypt `hash` and `compare`;
- JWT `sign` and `verify`;
- the password that `UserService.create` stores.

Nothing cryptographic is assumed about them. `LoginTokenValidates` is the
one exception: it takes "verify undoes sign" as a hypothesis. The values the
database or the runtime chooses are method parameters: row ids, timestamps
and bcrypt's random salt.

Where the code and the documented behaviour differ, the model follows the
code:

- A duplicate `signup` fails with status 401 (`Exception(USER_EXISTS, 401)`).
  The controller's API documentation promises 409; `register` does use
  `Conflict` (409).
- `login` returns the whole stored user row, password field included
  (`LoginClaimsRequestedEmail`). It does not return a sanitised view.
- The admin bypass compares the caller's role with the string `"admin"`
  (`MayModify`).

## Model

| member | source | states |
|---|---|---|
| `Strings.Split` | src/auth/auth.service.ts:45 | `split(' ')` gives at least one part. No part contains the separator, and joining the parts with the separator gives back the input. |
| `Strings.SplitJoin` | src/auth/auth.service.ts:45 | Round trip: splitting the join of separator-free parts returns exactly those parts. |
| `Strings.SplitAfterHead` | src/auth/auth.service.ts:45 | A separator-free head followed by a separator becomes the first part, so `"Bearer " + t` splits into `"Bearer"` followed by the parts of `t`. |
| `Strings.FirstPartIsPrefix` | src/auth/auth.service.ts:45 | The first part is the longest separator-free prefix: a prefix, with no separator in it, ending at a separator or at the end of the input. |
| `Strings.StartsWith` | src/auth/auth.service.ts:41 | `startsWith('Bearer ')`: the prefix matches character by character, so the test is case-sensitive and needs exactly one space. |
| `Strings.Join` | src/auth/auth.service.ts:41 | The parts with one separator between neighbours. It gives the comma join of an array header's `toString()`, and it is the inverse that `Split` and `SplitJoin` are proved against. |
| `Auth.AuthService.constructor` | src/auth/auth.service.ts:23-28 | A service starts with an empty user table and the collaborators it is given. |
| `Auth.HeaderString` | src/auth/auth.service.ts:41 | `authHeader.toString()` (also at line 45): a single header value as it is, and an array of values joined with commas. |
| `Auth.Truthy` | src/auth/auth.service.ts:41 | `!authHeader`: of the values that are present, only the empty string is falsy. An array, even an empty one, is truthy. |
| `Auth.AuthService.ValidateToken` | src/auth/auth.service.ts:30-35 | Succeeds exactly when the JWT library verifies the token, and returns its payload. Any rejection becomes `Unauthorized` (401) carrying the library's reason, and no other error escapes. |
| `Auth.AuthService.ExtractTokenFromHeaders` | src/auth/auth.service.ts:38-46 | Fails with `Unauthorized("Invalid authorization header format")` exactly when the header is absent or does not start with `"Bearer "` (case-sensitive, one space). Otherwise it returns the text after the prefix up to the next space, or up to the end if there is none. |
| `Auth.TokenOfUnique` | src/auth/auth.service.ts:45 | At most one string meets that description, so the contract fixes the token. |
| `Auth.ExtractTokenExamples` | src/auth/auth.service.ts:38-46 | `"Bearer abc"` gives `"abc"`, `"Bearer "` gives `""` and `"Bearer a b"` gives `"a"`. `"bearer abc"` and a missing header are rejected. |
| `Auth.AuthService.Signup` | src/auth/auth.service.ts:48-66 | A taken email fails with `HttpException(…, 401)` and the table is unchanged. A fresh email adds exactly one user, with that email and role USER whatever the caller sends, and returns "User created successfully". Every other user is unchanged. |
| `Auth.AuthService.Login` | src/auth/auth.service.ts:68-90 | Succeeds iff the email is stored and `compare(password, stored password)` holds. Every failure is the same `Unauthorized("Invalid email or password")`. On success the token is signed over exactly the user's `{id, email, role}`, and the full user row is returned. |
| `Auth.LoginFailuresIdentical` | src/auth/auth.service.ts:74-84 | An unknown email and a wrong password give identical results. |
| `Auth.LoginClaimsRequestedEmail` | src/auth/auth.service.ts:88-89 | In a consistent store the token is signed over the requested email. The response also carries the stored password field. |
| `Auth.LoginTokenValidates` | src/auth/auth.service.ts:30-35 | If `verify` undoes `sign`, then `validateToken` accepts the token `login` issued and returns the user's id, email and role. |
| `Auth.AuthService.Register` | src/auth/auth.service.ts:94-114 | A taken email fails with `Conflict("Email already exists")` (409) and the table is unchanged. Otherwise exactly one user is added and returned, with role USER and password `hash(password, 10, salt)` rather than the plaintext. |
| `Auth.AuthService.FindAll` | src/auth/auth.service.ts:116-120 | Returns one password-free view per stored user: as many views as users, each the projection of a stored user, and every stored user represented. |
| `Posts.Assign` | src/posts/posts.service.ts:55 | `Object.assign`: a title or content present in the body replaces the post's, an absent one keeps it. The id, author and creation time never change. |
| `Posts.AssignIdempotent` | src/posts/posts.service.ts:55 | Applying the same body twice equals applying it once, and an empty body changes nothing. |
| `Posts.MayModify` | src/posts/posts.service.ts:51 | The owner-or-admin rule that guards `update` and `remove` (also at line 62). The caller may act when they are the post's author or when their role is the string `"admin"`. `Update` and `Remove` apply it after the `NotFound` check. |
| `Posts.PostsService.constructor` | src/posts/posts.service.ts:11-14 | A service starts with an empty post table. |
| `Posts.PostsService.Create` | src/posts/posts.service.ts:16-22 | Stores and returns a post with the body's title and content and the calling user as author. Nothing else in the table changes. |
| `Posts.PostsService.FindOne` | src/posts/posts.service.ts:35-46 | Returns the stored post exactly when the id is in the table. Otherwise it fails with `NotFound("Post not found")` (404). |
| `Posts.PostsService.Update` | src/posts/posts.service.ts:48-57 | A missing id gives `NotFound` before any authorisation check. A caller who is neither the author nor `"admin"` gets `Forbidden`. In both cases the table is unchanged. Otherwise only the target post changes, to `Assign(post, body)`, and it is returned. |
| `Posts.PostsService.Remove` | src/posts/posts.service.ts:59-67 | The same two failures, in the same order, with the table unchanged. Otherwise exactly the target post is removed and every other post is unchanged. |
| `Posts.PostsService.NewestAmong` | src/posts/posts.service.ts:29 | Picks a candidate with the latest `createdAt` among the candidates. |
| `Posts.PostsService.ByNewest` | src/posts/posts.service.ts:29 | Lists every post of the table exactly once, with `createdAt` non-increasing. |
| `Posts.PostsService.FindAll` | src/posts/posts.service.ts:24-33 | Page defaults to 1 and limit to 10. `total` is the number of all posts. The page has at most `limit` posts. It is the window at `(page - 1) * limit` of a newest-first listing of all posts. |
| `Pagination.Window` | src/posts/posts.service.ts:27-28 | `skip`/`take` keeps at most `take` rows, read in order from position `skip`. It keeps as many as remain when fewer than `take` do. |
| `Pagination.PositionOnItsPage` | src/posts/posts.service.ts:27-28 | Position `k` of the listing appears on page `k / limit + 1`. |
| `Pagination.PageHoldsOnlyItsPositions` | src/posts/posts.service.ts:27-28 | Each row of page `p` belongs to page `p` and to no other page. |
| `Posts.PostOnItsPage` | src/posts/posts.service.ts:24-33 | Every listed post, and so every stored post, is shown on the page of its position. |
| `Posts.PostOnNoOtherPage` | src/posts/posts.service.ts:24-33 | In a listing that repeats no post, a post shown on some page is shown on the page of its position and no other. Together with `PostOnItsPage`, each post appears on exactly one page of that one listing. Across separate `findAll` calls this need not hold (see `TiedPostsListedEitherWay`). |
| `Posts.ListingHasNoRepeats` | src/posts/posts.service.ts:24-33 | A listing of the table repeats no post, because post ids are distinct. |
| `Posts.TiedPostsListedEitherWay` | src/posts/posts.service.ts:29 | Ordering by `createdAt` alone does not fix the listing. Two posts with the same `createdAt` may be listed either way round. With `limit = 1`, page 1 of one listing and page 2 of the other then show the same post, so across calls a post can appear twice or not at all. |

## Left out

- Posts.PostsService.FindAll: requires `page >= 1` and `limit >= 1`. The service passes a page below 1 or a limit below 1 straight to the query builder as a negative skip or a zero or negative take. What the query builder does with those is not part of this model.
- Posts.PostsService.Create: requires an id not already in the table. The database assigns ids and timestamps, so they are parameters here.
- Auth.AuthService.Signup: the stored password is `storedPassword(password)`. `UserService.create` and `findByEmail` are not part of this model, so whether sign-up hashes the password is left open. The row's id and timestamps are parameters. The second `save` of the same row is modelled as one insertion.
- Auth.AuthService.Register: bcrypt's random salt is a parameter. The cost factor 10 is passed to `hash` as written.
- bcrypt, `jsonwebtoken` and `JwtService` are uninterpreted function fields. Hashing, signatures, expiry and the secret's origin (environment variable and configuration module) are not modelled. Nor are the round-trip, tamper and expiry properties of tokens. The payload type holds only `id`, `email` and `role`. With an expiry configured (src/auth/auth.module.ts:19-21), the JWT library also adds `iat` and `exp` claims to the payload it signs and later returns. So `LoginTokenValidates`'s "returns the user's id, email and role" holds only within this abstraction, and the real `validateToken` result carries the two time claims as well.
- The admin bypass compares with the literal `"admin"`. The `UserRole` enum's string values live in `user.entity.ts`, which is not part of this model. So the model does not say whether `UserRole.ADMIN` users pass the check. Posts therefore carries the caller's role as a string, and `Auth` carries it as the enum.
- Posts.PostsService.Create and Posts.PostsService.Update: `create` spreads the whole body (`...createPostDto`) and `update` applies `Object.assign` to it, and both copy every own property of the request body. Only `title` and `content` are modelled, because the validation-pipe configuration that would strip other properties is not part of this model. A body that carried its own `id` could make `create`'s `save` overwrite an existing post. `Create`'s `requires id !in posts` rules that case out rather than modelling it. The post's `updatedAt` column and relation loading are not modelled either.
- Posts.UpdatePostDto: `@IsOptional()` also lets an explicit `null` title or content through validation, and `Object.assign` would copy that `null` onto the post. `Option<string>` has no way to say "present but null", so this case is not modelled.
- Posts.PostsService.FindAll: the listing is ordered by `createdAt` only. Posts created at the same instant have no fixed order, so separate calls may page them differently. The model keeps this: each call chooses its own newest-first listing (`TiedPostsListedEitherWay`).
- Controllers, guards (`JwtAuthGuard`, `RolesGuard`, the admin-only gate on `GET /auth/users`), the module wiring and the DTO validation decorators are not modelled.
- Asynchrony and concurrent requests are not modelled. Each operation runs as one atomic step against the table.
