# Forum: a Dafny model of the API's decision logic and the client's state logic

The forum is an Express API (`forumApi`) with a Vue client (`forumClient`). This project
models the parts of both that decide something, and proves what they promise:

- on the server:
  - the CSRF token issuer and verifier, and the route middleware that compares the CSRF cookie with the header;
  - the bearer-token middleware;
  - the owner-or-role privilege test;
  - the HTTP error classes and the global error handler;
  - login, registration, logout and password change, in the current and the older service;
  - the profile projections and the profile update, in the current and the older service;
  - the ownership-guarded post and comment operations;
  - the cursor and offset pagination of `findAll`;
  - the two email maskers.
- on the client:
  - the authentication form validators;
  - the router guard;
  - the cookie reader and the request interceptor;
  - the session store;
  - the cursor-paged post list;
  - the post page's delete button and comment list;
  - the create-post form and the comment form;
  - the metro-station upsert.

The model uses these conventions:

- A JavaScript value, where the code relies on truthiness or on `===` across types, is
  `Base.Value` (`undefined`, `null`, booleans, integers, strings).
- Code that throws returns `Errors.Result`. Its error is an `HttpError` of one of the four kinds, a plain `Error`, or a database error that carries a SQLSTATE code and a constraint name.
- State that the source changes in place is a class whose methods state the new state in terms of the old:
  - the users table (`Credentials.UserStore`);
  - the posts and comments tables (`Tables.Table`);
  - the response's cookie jar;
  - the Pinia and Vue refs.
- Foreign code becomes a parameter:
  - HMAC-SHA256, `jwt.verify`, `jwt.sign` and token sealing are uninterpreted functions;
  - `decodeURIComponent` is an uninterpreted function;
  - bcrypt is a pair of uninterpreted functions with a ghost trace of its `compare` calls;
  - random bytes and salts are inputs;
  - the result of every network request is an input (`AuthStore.Outcome`, `Base.Reply`, `Option<Feed.Page>`).
- The shared helper modules model JavaScript's built-ins on strings (`Strings`), and a table of rows with distinct ids (`Tables`).

Where the code and its documentation disagree, the model follows the code:

- The global handler's JSON body carries the key `error`, not `message`.
- The server masker's doc comment shows `john.doe@example.com` becoming `jo****doe@…`. The code keeps only the last two characters, giving `jo****oe@example.com`.
- The store's "not found" message has no final period (`'Utilisateur non trouvé'`), while the services' message ends with one.

## Model

| member | source | states |
|---|---|---|
| ServerMaskEmail.MaskLocal | forumApi/utils/maskEmail.js:20-27 | fails exactly for an empty local part, with the RangeError of `'*'.repeat(-1)` |
| ServerMaskEmail.MaskLocalShape | forumApi/utils/maskEmail.js:20-26 | a local part of 1-2 characters keeps its first character and its length, and the rest is asterisks; a longer one keeps its first two and last two characters around asterisks only, and its length is kept from 5 on and is 5 for 3 or 4 |
| ServerMaskEmail.MaskEmail | forumApi/utils/maskEmail.js:12-30 | a falsy value, a non-string, or a string without '@' comes back unchanged; otherwise the result is the masked text before the first '@', then '@', then only the text up to the second '@'; an address starting with '@' throws |
| ServerMaskEmail.SingleAtKeepsDomain | forumApi/utils/maskEmail.js:17-29 | with a single '@', the domain is copied verbatim after the masked local part |
| ServerMaskEmail.LaterPiecesDropped | forumApi/utils/maskEmail.js:17-29 | 'l@d@x' masks exactly as 'l@d' does |
| ServerMaskEmail.EmptyLocalThrows | forumApi/utils/maskEmail.js:20-21 | every input starting with '@' throws the RangeError |
| ClientMaskEmail.MaskEmail | forumClient/src/composables/useMaskEmail.ts:1-9 | a falsy or non-string value gives ''; a first '@' at index 0 or 1, or no '@', returns the input unchanged; the result is always a string |
| ClientMaskEmail.MaskShape | forumClient/src/composables/useMaskEmail.ts:5-8 | when masking happens: the length is kept; everything from the first '@' on is kept verbatim, later '@' included; a two-character local part becomes "**"; a longer one keeps its first two characters, and the rest of it is asterisks |
| ClientMaskEmail.MaskKeepsFirstAt | forumClient/src/composables/useMaskEmail.ts:3-8 | the first '@' of the masked text is where it was in the input |
| Csrf.Signature | forumApi/features/auth/utils/csrf.js:10-13 | the hex digest is 64 hex characters, with no '.' |
| Csrf.GenerateCsrfToken | forumApi/features/auth/utils/csrf.js:8-15 | the token is 64 hex characters, with no '.'; the signed form is the token, '.', then the HMAC of the token |
| Csrf.VerifyCsrfToken | forumApi/features/auth/utils/csrf.js:17-29 | a missing or empty header or cookie is rejected; so is a cookie whose first '.'-piece is empty, or whose second piece is missing or empty |
| Csrf.CookieDecompose | forumApi/features/auth/utils/csrf.js:20 | the first two '.'-pieces hold no '.', and the cookie begins with them joined by '.', then ends or goes on with '.' |
| Csrf.VerifyCharacterized | forumApi/features/auth/utils/csrf.js:17-29 | the verifier accepts exactly this: the header is non-empty and has no '.', and the cookie begins with the header, '.', then the header's signature, then ends or goes on with '.' (both directions) |
| Csrf.GeneratedTokenVerifies | forumApi/features/auth/utils/csrf.js:8-28 | round trip: every generated raw token verifies against its own signed form |
| Csrf.ExtraPiecesIgnored | forumApi/features/auth/utils/csrf.js:20 | "raw.sig.extra" verifies exactly as "raw.sig" does |
| Csrf.SignedHeaderRejected | forumApi/features/auth/utils/csrf.js:20-28 | a signed form sent as the header is rejected, whatever the cookie |
| CsrfMiddleware.CsrfCookie | forumApi/middleware/csrf.middleware.js:3 | the unsigned `csrf_token` cookie when it is truthy, and the signed one otherwise (`Or`) |
| CsrfMiddleware.Check | forumApi/middleware/csrf.middleware.js:2-10 | `next()` is called exactly when the cookie (unsigned first) and the header are both truthy and strictly equal; otherwise 403 'Token CSRF invalide ou manquant.' |
| CsrfMiddleware.EqualPairPasses | forumApi/middleware/csrf.middleware.js:6-9 | any equal, non-empty cookie and header pass; no HMAC check is made |
| CsrfMiddleware.MissingRejected | forumApi/middleware/csrf.middleware.js:6-8 | a missing header, or a cookie missing from both jars, gets the 403 |
| CsrfMiddleware.UnsignedFirst | forumApi/middleware/csrf.middleware.js:3 | a truthy unsigned cookie makes the signed cookie irrelevant |
| CsrfFlow.SignedIsPlain | forumApi/features/auth/auth.service.js:45-48 | the signed token holds no '=', ';' or '%' and is non-empty, so the cookie jar and URI decoding leave it unchanged |
| CsrfFlow.JarReads | forumClient/src/services/apiClient.ts:14-19 | the client reads back, unchanged, a plain value stored as the first `csrf_token` entry of the jar |
| CsrfFlow.DoubleSubmitDisagrees | forumApi/features/auth/auth.service.js:45-48 | after login: the client sends the signed token as `X-CSRF-Token` on every non-GET request; the route middleware accepts that pair; `verifyCsrfToken` rejects it and accepts only the raw token, which the middleware would then reject |
| AuthMiddleware.Authenticate | forumApi/middleware/auth.middleware.js:11-43 | success holds exactly when the header is a string starting with 'Bearer ' and `jwt.verify` accepts its second space-separated piece; the claim returned is the payload's `user`; every failure is the same AuthenticationError 'Token invalide ou expiré.' |
| AuthMiddleware.TokenAfterBearer | forumApi/middleware/auth.middleware.js:23 | "Bearer t" and "Bearer t x" both hand `t` to the verifier |
| AuthMiddleware.RejectionIs401 | forumApi/middleware/auth.middleware.js:17-42 | every rejection, including a missing header, answers 401 with the one fixed message |
| AuthMiddleware.Handle | forumApi/middleware/auth.middleware.js:28-42 | `next` is called exactly once: with no argument after `req.user` is set to the claim, or with the error while `req.user` stays as it was |
| Privilege.HasPrivilege | forumApi/utils/privilegeCheck.js:1-19 | `hasPrivilege(ownerId, userId, userRole)`; its meaning is stated by the lemmas below |
| Privilege.PrivilegeCharacterized | forumApi/utils/privilegeCheck.js:1-19 | the result is true exactly for the owner (`===`), an admin or a moderator |
| Privilege.OwnerAllowed | forumApi/utils/privilegeCheck.js:14-18 | the owner is allowed whatever the role, undefined included |
| Privilege.PrivilegedAllowed | forumApi/utils/privilegeCheck.js:15 | an admin or a moderator is allowed on what they do not own |
| Privilege.OthersDenied | forumApi/utils/privilegeCheck.js:16-18 | a non-owner with any other role is refused |
| Privilege.StrictOwnership | forumApi/utils/privilegeCheck.js:14 | the id 5 does not own what the string "5" owns |
| Errors.NewError | forumApi/utils/errors.js:13-61 | an error of kind k carries k, and the supplied message when one is given, otherwise k's default message |
| Errors.StatusCodeOf | forumApi/utils/errors.js:16 | only the four `HttpError` kinds carry a status code |
| Errors.KindTableInjective | forumApi/utils/errors.js:26-63 | the status codes 404/403/409/401, and also the names, tell the four kinds apart |
| Errors.NewErrorFields | forumApi/utils/errors.js:13-63 | every kind has a 4xx status and a non-empty default message; a new error carries its kind's status, and its message is the supplied one or the default |
| ErrorHandler.HandleError | forumApi/middleware/errorHandler.js:5-18 | the response for an error value: `Handle` of its `statusCode` and `message` |
| ErrorHandler.Handle | forumApi/middleware/errorHandler.js:5-18 | the status is `statusCode`, or 500 when it is absent or 0; a production 500 always carries the generic message; any other response carries the error's message, or the generic one when that is empty |
| ErrorHandler.HttpErrorResponse | forumApi/middleware/errorHandler.js:6-17 | an `HttpError` answers with its kind's status and its own message, even in production |
| ErrorHandler.UntypedErrorIs500 | forumApi/middleware/errorHandler.js:6-16 | an error without a status code (plain or database) is a 500, and in production its message never reaches the client |
| ErrorHandler.DevelopmentShowsMessage | forumApi/middleware/errorHandler.js:11-17 | outside production the body is the message for every status |
| Credentials.UserStore.Create | forumApi/features/auth/auth.model.js:6-9 | the insert is refused with a unique violation on `users_email_key`, or else on `users_username_key`, and the table is unchanged; otherwise the row is appended with the next id, and its id, username and email come back without the hash |
| Credentials.UserStore.UpdatePassword | forumApi/features/auth/auth.model.js:21-30 | a missing row gives NotFoundError 'Utilisateur non trouvé' and changes nothing; otherwise that row's hash is replaced |
| Credentials.UserStore.UpdateProfile | forumApi/features/users/user.model.js:21-33 | a missing row gives NotFoundError; the UPDATE's unique violations come email first; otherwise the row gets the new username and email and the id, username and email that `RETURNING` names come back, without the hash |
| Credentials.SelectIdForUpdate | forumApi/features/users/user.queries.js:21-30 | the row locked for the update exists exactly when the id does, and holds only `id` |
| Credentials.ProfileGuardAsWritten | forumApi/features/users/user.model.js:23-28 | NotFoundError without a row; otherwise the update may go on exactly when the row's `email` and `username` are `===` the new ones, and is refused with the AuthenticationError of line 28 otherwise |
| Credentials.ProfileUpdateAlwaysRefused | forumApi/features/users/user.model.js:23-28 | as written, every update of an existing user is refused with that AuthenticationError |
| Credentials.Bcrypt.Compare | forumApi/features/auth/auth.service.js:32-62 | the answer is the uninterpreted `compare`, and the call is appended to the trace |
| Credentials.Bcrypt.Hash | forumApi/features/auth/auth.service.js:10-65 | `bcrypt.hash(password, cost)` with the drawn salt as a parameter: the uninterpreted hash of the three |
| AuthService.Payload | forumApi/features/auth/auth.service.js:39-42 | the payload is `{user: {id}, sub: id}` |
| AuthService.LoginOutcome | forumApi/features/auth/auth.service.js:29-37 | a login succeeds exactly for the row with that email whose hash matches the password; every failure is AuthenticationError 'Identifiants invalides.' |
| AuthService.RegisterUser | forumApi/features/auth/auth.service.js:8-24 | a taken email or username gives ConflictError 'Mot de passe ou identifiant incorrect.' and stores nothing; otherwise the new row holds the cost-10 hash, not the password, and the id, username and email that `create` hands back are returned |
| AuthService.LoginUser | forumApi/features/auth/auth.service.js:26-50 | exactly one `compare` is made, against the dummy hash when the email is unknown; a failure sets no cookie; a success sets the auth cookie with the sealed payload, then `csrf_token` with the signed CSRF token |
| AuthService.LogoutUser | forumApi/features/auth/auth.service.js:52-55 | a falsy id gives AuthenticationError and clears nothing; otherwise the auth cookie is cleared |
| AuthService.ChangeUserPasswordWithVerification | forumApi/features/auth/auth.service.js:57-69 | no stored hash gives NotFoundError with no `compare`; a wrong current password gives AuthenticationError and leaves the hash; otherwise the stored hash becomes the cost-10 hash of the new password, and the result is true |
| AuthService.LoginFailuresAlike | forumApi/features/auth/auth.service.js:29-37 | an unknown email and a wrong password produce the same error |
| AuthService.RegisterThenLogin | forumApi/features/auth/auth.service.js:8-37 | with a sound bcrypt, a newly registered user logs in with the password they registered |
| AuthService.ChangeThenLogin | forumApi/features/auth/auth.service.js:29-69 | with a sound bcrypt, the new password lets the user in after a change |
| LegacyAuthService.Payload | forumApi/services/auth.service.js:50-55 | the payload carries only `user.id`, with no `sub` |
| LegacyAuthService.RegisterUser | forumApi/services/auth.service.js:10-29 | a taken email or username gives ConflictError before any hash or write; otherwise a salted cost-10 hash is stored |
| LegacyAuthService.LoginUser | forumApi/services/auth.service.js:36-69 | an unknown email fails with no `compare`; a wrong password fails with the same error after one `compare`; a success returns the token, signed with the environment's expiry or '1d', and `{id, username}` only |
| UserService.ToPublicProfile | forumApi/features/users/user.service.js:5-10 | no user gives null; otherwise the email is replaced by its masking and every other field is kept (the call fails when the masker throws) |
| UserService.GetUserProfile | forumApi/features/users/user.service.js:12-16 | a missing user gives NotFoundError exactly; otherwise the row comes back as it is |
| UserService.GetPublicUserProfile | forumApi/features/users/user.service.js:18-23 | a missing user gives NotFoundError; otherwise the public projection |
| UserService.PublicMasksOwn | forumApi/features/users/user.service.js:12-23 | the public profile has the own profile's fields and values, except the email, which shows the masked local part and the domain verbatim |
| UserService.MapUpdateError | forumApi/features/users/user.service.js:31-43 | '23505' on `users_email_key` gives Conflict 'Cet email est déjà utilisé.'; on `users_username_key` it gives Conflict 'Ce nom d’utilisateur est déjà pris.'; any other error is rethrown unchanged |
| UserService.MappedStatus | forumApi/features/users/user.service.js:33-42 | the two duplicates answer 409; every other error keeps the status it had |
| UserService.UpdateUserProfile | forumApi/features/users/user.service.js:25-44 | an empty username or email throws a plain Error before the store is touched; the store's failures are mapped; a failure changes nothing; an existing user with no clash on either field succeeds, and only then; a success writes both fields and resolves to the id, username and email without the hash |
| LegacyUserService.ToPublicProfile | forumApi/services/user.service.js:5-9 | no user gives null; otherwise the row without `password_hash` or `email`, with every other field identical |
| LegacyUserService.GetUserProfile | forumApi/services/user.service.js:14-22 | a missing user gives NotFoundError exactly; otherwise the row without `password_hash`, email kept |
| LegacyUserService.GetPublicUserProfile | forumApi/services/user.service.js:27-33 | a missing user gives NotFoundError; otherwise the public projection |
| LegacyUserService.PublicIsOwnWithoutEmail | forumApi/services/user.service.js:5-33 | the public profile is the own profile less the email, and neither shows the hash |
| PostModel.EffectiveLimit | forumApi/features/posts/post.model.js:21 | `parseInt(limit)`, or 10 when it is NaN or 0, capped at 50, with no lower bound |
| PostModel.Cursor | forumApi/features/posts/post.model.js:22-27 | a cursor is used exactly when the option is truthy and parses to a non-zero number |
| PostModel.MaxBelow | forumApi/features/posts/post.model.js:35-37 | the row with the highest id below the bound, or none when no row is below it |
| PostModel.TakeDesc | forumApi/features/posts/post.model.js:35-49 | `WHERE id < cursor ORDER BY id DESC LIMIT n`; its meaning is stated by TakeDescSound and TakeDescComplete |
| PostModel.TakeDescSound | forumApi/features/posts/post.model.js:35-49 | a page holds at most `n` rows of the table, all below the bound, with ids strictly descending |
| PostModel.TakeDescComplete | forumApi/features/posts/post.model.js:35-49 | a page skips nothing: a qualifying row missing from it has a lower id than every row on it, and then the page is full |
| PostModel.FindAll | forumApi/features/posts/post.model.js:20-56 | a negative limit is refused by the database; otherwise the page after the cursor (or the first page) at the effective limit |
| PostModel.FindAllPage | forumApi/features/posts/post.model.js:20-56 | a page has at most the limit and at most 50 rows, ids descending, all below the cursor, and leaves out a qualifying row only when it is full of higher ids |
| PostModel.ZeroCursorIsFirstPage | forumApi/features/posts/post.model.js:22-52 | the cursor "0" gives the first page |
| PostModel.Update | forumApi/features/posts/post.model.js:58-66 | no existing row throws 'Post not found' and changes nothing; otherwise title and content are replaced |
| LegacyPostModel.IntOr | forumApi/models/post.model.js:34-35 | `parseInt(v) \|\| fallback`: the parsed number unless it is NaN or 0 |
| LegacyPostModel.PageParams | forumApi/models/post.model.js:34-39 | the offset is (page − 1) times the uncapped limit; the LIMIT is the limit capped at 50 |
| LegacyPostModel.Window | forumApi/models/post.model.js:47-53 | `LIMIT n OFFSET offset` on the ordered rows: a negative offset, then a negative limit, is refused; otherwise the run of up to `n` rows from `offset` on |
| LegacyPostModel.FindAll | forumApi/models/post.model.js:32-54 | a negative offset, then a negative limit, is refused; otherwise the page is the run of ordered rows starting at the offset, at most LIMIT long |
| LegacyPostModel.LargeLimitSkips | forumApi/models/post.model.js:36-39 | with a limit above 50, page p ends 50 rows after its offset, while page p+1 starts a full limit later, so rows in between are never listed |
| PostService.GetPostByIdAsWritten | forumApi/features/posts/post.service.js:19-23 | never throws; it yields the post when one has the id, and nothing otherwise |
| PostService.GetPostById | forumApi/services/post.service.js:13-19 | NotFoundError exactly when no post has the id; otherwise that post |
| PostService.MissingPostNotReported | forumApi/features/posts/post.service.js:19-23 | for a missing post the code as written answers with no post, where the intended code answers 404 |
| PostService.GetPostByIdAgrees | forumApi/features/posts/post.service.js:19-23 | the two agree whenever the post exists |
| PostService.UpdateUserPost | forumApi/features/posts/post.service.js:29-35 | NotFoundError first, then AuthorizationError for a non-owner, whatever their role; a failure changes nothing; the owner's changes are applied. The older forumApi/services/post.service.js:21-33 makes the same checks |
| PostService.DeleteUserPost | forumApi/features/posts/post.service.js:37-45 | NotFoundError first; the post is removed exactly when `hasPrivilege(owner, user, role)` holds; otherwise AuthorizationError, and the post remains |
| LegacyPostService.DeleteUserPost | forumApi/services/post.service.js:35-47 | NotFoundError first, then AuthorizationError for anyone but the owner, with no role exemption; only the owner's delete removes the post |
| CommentService.CreateComment | forumApi/features/comments/comment.service.js:5-10 | a missing post gives NotFoundError and creates nothing; otherwise the comment is appended under a fresh id and returned. The older forumApi/services/comment.service.js:5-12 is the same |
| CommentService.UpdateUserComment | forumApi/features/comments/comment.service.js:16-22 | NotFoundError first, then AuthorizationError for a non-owner, and a failure changes nothing; the owner's update replaces the content, and every other comment reads back as before. forumApi/services/comment.service.js:18-29 is the same |
| CommentService.DeleteUserComment | forumApi/features/comments/comment.service.js:24-29 | NotFoundError first, then AuthorizationError for a non-owner; the owner's delete removes the comment and resolves to undefined. forumApi/services/comment.service.js:31-42 is the same |
| CommentService.CreateThenDelete | forumApi/features/comments/comment.service.js:5-29 | the author creating a comment and then deleting it leaves the comment table as it was |
| AuthValidation.EmailFormat | forumClient/src/composables/useAuthValidation.ts:40 | the email pattern; EmailFormatFromParts and EmailFormatToParts show it accepts exactly run, '@', run, '.', run |
| AuthValidation.EmailFormatFromParts | forumClient/src/composables/useAuthValidation.ts:40 | every string of the form run, '@', run, '.', run (runs free of white space and '@') passes the email check |
| AuthValidation.EmailFormatToParts | forumClient/src/composables/useAuthValidation.ts:40 | every string that passes the email check splits in that form |
| AuthValidation.PasswordPattern | forumClient/src/composables/useAuthValidation.ts:41 | the password pattern's three look-aheads, each before the first line terminator |
| AuthValidation.FirstLine | forumClient/src/composables/useAuthValidation.ts:41 | the text before the first line terminator |
| AuthValidation.PasswordPatternOneLine | forumClient/src/composables/useAuthValidation.ts:41 | on one line, the password pattern asks for a lower-case letter, a capital and one of `!@#$%^&*` |
| AuthValidation.SpecialAfterBreakIgnored | forumClient/src/composables/useAuthValidation.ts:41 | a special character after a line break does not count ("aB\n!" fails) |
| AuthValidation.UsernameError | forumClient/src/composables/useAuthValidation.ts:44-54 | the message is non-empty exactly when the name is empty or its length is outside 3..64 |
| AuthValidation.EmailError | forumClient/src/composables/useAuthValidation.ts:57-67 | precedence: required, then format, then the 64-character limit, then '' |
| AuthValidation.ConfirmEmailError | forumClient/src/composables/useAuthValidation.ts:75-87 | precedence: required, then format, then equality with the email |
| AuthValidation.PasswordError | forumClient/src/composables/useAuthValidation.ts:94-102 | precedence: required, then length 8..256, then the pattern |
| AuthValidation.ConfirmPasswordError | forumClient/src/composables/useAuthValidation.ts:113-119 | non-empty exactly when the confirmation is empty or differs from the chosen password field |
| AuthValidation.CurrentPasswordError | forumClient/src/composables/useAuthValidation.ts:124-130 | non-empty exactly when the current password is empty |
| AuthValidation.InitiallyValid | forumClient/src/composables/useAuthValidation.ts:145-147 | before any validator runs, the form counts as valid |
| AuthValidation.StepsWriteOwnKeys | forumClient/src/composables/useAuthValidation.ts:44-142 | each validator writes only its own key plus its paired confirmation key, and one whose field is absent writes nothing |
| AuthValidation.AllStep | forumClient/src/composables/useAuthValidation.ts:134-142 | the messages after `validateAllFields`; AllStepMessages states what each field then holds |
| AuthValidation.AllStepMessages | forumClient/src/composables/useAuthValidation.ts:134-142 | after `validateAllFields`, each field the form has holds its validator's message, and no other key is written |
| AuthValidation.AllFieldsVerdict | forumClient/src/composables/useAuthValidation.ts:134-147 | after `validateAllFields` on a fresh form, `isFormValid` holds exactly when every field is acceptable |
| AuthValidation.MessagesVerdict | forumClient/src/composables/useAuthValidation.ts:134-147 | whenever each present field holds its validator's message and no other key is written, `isFormValid` holds exactly when every present field is acceptable |
| AuthValidation.Validator.IsValid | forumClient/src/composables/useAuthValidation.ts:145-147 | true exactly when every recorded message is '' |
| AuthValidation.Validator.ValidateUsername | forumClient/src/composables/useAuthValidation.ts:44-54 | the messages become the username step applied to the old messages |
| AuthValidation.Validator.ValidateEmail | forumClient/src/composables/useAuthValidation.ts:57-72 | the messages become the email step, which reruns the confirmation check when that field exists |
| AuthValidation.Validator.ValidateConfirmEmail | forumClient/src/composables/useAuthValidation.ts:75-87 | the messages become the confirmation-email step |
| AuthValidation.Validator.ValidatePassword | forumClient/src/composables/useAuthValidation.ts:90-106 | the messages become the password step, on `newPassword` if present, otherwise `password`, followed by the confirmation check when one of its fields exists |
| AuthValidation.Validator.ValidateConfirmPassword | forumClient/src/composables/useAuthValidation.ts:109-120 | the messages become the confirmation-password step |
| AuthValidation.Validator.ValidateCurrentPassword | forumClient/src/composables/useAuthValidation.ts:123-131 | the messages become the current-password step |
| AuthValidation.Validator.ValidateAllFields | forumClient/src/composables/useAuthValidation.ts:134-142 | the messages become the six steps in the source's order, each guarded by its field |
| Router.Named | forumClient/src/router/index.ts:7-49 | the route of the table with that name, or none when no route has it |
| Router.Guard | forumClient/src/router/index.ts:59-82 | the one decision per navigation, for every case: unauthenticated on requiresAuth goes to 'login'; authenticated on login or register goes to 'forum'; authenticated on another requiresAuth route goes to 'unauthorized' exactly when it declares roles that do not include the role, and proceeds otherwise; a route without requiresAuth proceeds |
| Router.RolesBranchUnreachable | forumClient/src/router/index.ts:7-77 | no route of the table declares roles, so no navigation is sent to 'unauthorized' |
| Router.HomeAlwaysProceeds | forumClient/src/router/index.ts:66-81 | 'home' has no meta and is always reached |
| Router.NoRedirectLoop | forumClient/src/router/index.ts:7-81 | every redirect names a route of the table, which the same user then reaches without a further redirect |
| ApiClient.ValueText | forumClient/src/services/apiClient.ts:18 | `split('=')[1]`: present exactly when the entry holds '=', and free of '=' |
| ApiClient.GetCookie | forumClient/src/services/apiClient.ts:14-19 | null exactly when no '; '-entry starts with `name=`; otherwise the first such entry's text between its first and second '=' is decoded, and the result is that decoded text or, when the decode fails, the URIError |
| ApiClient.GetCookieDecodes | forumClient/src/services/apiClient.ts:14-19 | for a jar whose first `name=` entry is `name=v` followed by nothing or by '=', the result is `decodeURIComponent(v)`, or the URIError when it throws |
| ApiClient.GetCookieCutsAtSecondEquals | forumClient/src/services/apiClient.ts:18 | a value holding '=' is cut there: `name=a=b` reads as `a` decoded |
| ApiClient.GetCookieFinds | forumClient/src/services/apiClient.ts:14-19 | with a `decodeURIComponent` that keeps text without '%', the first entry `name=v` wins and a plain `v` comes back as it is |
| ApiClient.GetCookieAbsent | forumClient/src/services/apiClient.ts:17 | with no entry starting with `name=` (so 'csrf_token_old=…' does not count for 'csrf_token'), the result is null |
| ApiClient.Intercept | forumClient/src/services/apiClient.ts:21-28 | the same configuration is returned; `X-CSRF-Token` is set to the cookie exactly when the cookie is non-empty and the method is present and not 'get' in any case; no other header changes |
| ApiClient.GetNeverSends | forumClient/src/services/apiClient.ts:23 | 'get', 'GET' and 'Get' never carry the header |
| ApiClient.PostSends | forumClient/src/services/apiClient.ts:23-24 | 'post' and 'DELETE' carry a present token |
| AuthStore.Fetched | forumClient/src/stores/auth.ts:20-21 | data replaces the user; otherwise an error clears it; otherwise the user stays |
| AuthStore.FetchedAuthentication | forumClient/src/stores/auth.ts:13-22 | after a fetch the store is authenticated exactly when data came back, or nothing came back and it already was; fetching the same outcome again changes nothing |
| AuthStore.Store.IsAuthenticated | forumClient/src/stores/auth.ts:13 | true exactly when a user is loaded |
| AuthStore.Store.UserRole | forumClient/src/stores/auth.ts:14 | the loaded user's role, or null |
| AuthStore.Store.FetchUser | forumClient/src/stores/auth.ts:17-22 | calls `/users/me`; the user becomes `Fetched` of the old user |
| AuthStore.Store.Login | forumClient/src/stores/auth.ts:25-33 | a login error is rethrown: the user is unchanged and `/users/me` is not called; after a success `fetchUser` runs |
| AuthStore.Store.Register | forumClient/src/stores/auth.ts:36-43 | rethrows the error and never touches the user |
| AuthStore.Store.Logout | forumClient/src/stores/auth.ts:46-58 | whatever the server answers, the user is cleared and the router goes to /login |
| AuthStore.Store.UpdateProfile | forumClient/src/stores/auth.ts:70-78 | data replaces the user; otherwise the error is thrown and the user is kept |
| AuthStore.Store.ChangePassword | forumClient/src/stores/auth.ts:81-88 | rethrows the error and never touches the user |
| Feed.RequestParams | forumClient/src/composables/usePosts.ts:50-60 | always limit 10 and the order; the cursor pair only when both halves are truthy; the title search only when non-empty; the tag only when truthy |
| Feed.PostFeed.FetchPosts | forumClient/src/composables/usePosts.ts:36-79 | a call while loading and without reset does nothing; a reset empties the list and cursors first; on success the page is appended in order, hasMore is taken from the response, and the cursor moves to the last post when the page has one; on failure the message is set and the list and cursor stay; loading is off on every exit |
| Feed.NextPageFollows | forumClient/src/composables/usePosts.ts:36-79 | after a reset that receives a page, the next fetch asks for what follows that page's last post, and appends what it receives after the first page |
| PostDetail.CanDelete | forumClient/src/composables/usePostDetail.ts:28-33 | true exactly when the store is authenticated, user and post are loaded and `user.id === post.user_id` |
| PostDetail.ButtonHiddenFromModerators | forumClient/src/composables/usePostDetail.ts:28-33 | an admin or moderator does not see the button on another user's post, although `hasPrivilege` would let the server delete it |
| PostDetail.Removed | forumClient/src/composables/usePostDetail.ts:85 | the filtered list is never longer than the list |
| PostDetail.RemovedMembers | forumClient/src/composables/usePostDetail.ts:84-86 | exactly the comments with another id are kept |
| PostDetail.RemovedAppend | forumClient/src/composables/usePostDetail.ts:84-86 | the filter keeps the order (it distributes over concatenation) |
| PostDetail.RemovedAbsent | forumClient/src/composables/usePostDetail.ts:85 | removing an id no comment has leaves the list as it is |
| PostDetail.AddThenRemove | forumClient/src/composables/usePostDetail.ts:77-86 | adding a comment under a fresh id, then removing that id, restores the list |
| PostDetail.CommentList.AddComment | forumClient/src/composables/usePostDetail.ts:77-79 | the comment is pushed at the end, and the others are untouched |
| PostDetail.CommentList.RemoveComment | forumClient/src/composables/usePostDetail.ts:84-86 | the list becomes its filter |
| CreatePost.FormError | forumClient/src/composables/useCreatePost.ts:10-59 | no refusal exactly when title and content are non-empty, a tag is chosen and both lengths are within 100 and 5000; emptiness is checked first, then the title's length, then the content's |
| CreatePost.TagName | forumClient/src/composables/useCreatePost.ts:66 | the name of the first tag with that id, or '' when none has it |
| CreatePost.TagNameFirstMatch | forumClient/src/composables/useCreatePost.ts:66 | the name is the one of the first tag whose id is `===` the chosen id, at whatever position |
| CreatePost.PostForm.HandleSubmit | forumClient/src/composables/useCreatePost.ts:41-76 | a refused form sends nothing and shows its message; a reply ends loading; a success records the post with its tag name and author name (or '') and empties the form; a failure keeps the form and shows the server's message or the default |
| CommentSubmit.ContentError | forumClient/src/composables/useCommentSubmit.ts:8-32 | a blank text is refused first; then a text longer than 1000 characters as typed, surrounding white space included; otherwise no refusal |
| CommentSubmit.BlankMeansTrimmedEmpty | forumClient/src/composables/useCommentSubmit.ts:25 | the blank refusal is given exactly when `trim()` leaves the empty string |
| CommentSubmit.CommentForm.Submit | forumClient/src/composables/useCommentSubmit.ts:21-54 | a refused text sends nothing; on success the comment, with the user's name or 'Vous' as author, goes to `onSuccess` when one is given, and the text is cleared; on failure the text stays and the message is the server's or the default; loading ends off |
| MetroStore.FirstIndex | forumClient/src/stores/metroStore.ts:9 | the position of the first station with that id, or -1 when none has it |
| MetroStore.Upserted | forumClient/src/stores/metroStore.ts:8-16 | the list after `updateMetro`; its meaning is stated by the Upsert lemmas below |
| MetroStore.UpsertExisting | forumClient/src/stores/metroStore.ts:9-13 | for a known id, the first station with it gets the new coordinates, and the length and every other station are unchanged |
| MetroStore.UpsertAbsent | forumClient/src/stores/metroStore.ts:14-15 | for an unknown id, the new station is pushed at the end and nothing else changes |
| MetroStore.UpsertFinds | forumClient/src/stores/metroStore.ts:8-16 | after the call, the first station with that id holds the new coordinates |
| MetroStore.UpsertIdempotent | forumClient/src/stores/metroStore.ts:8-16 | repeating the call gives the same list |
| MetroStore.UpsertKeepsUnique | forumClient/src/stores/metroStore.ts:9-15 | distinct ids stay distinct |
| MetroStore.Store.UpdateMetro | forumClient/src/stores/metroStore.ts:8-16 | the scan finds the first match, and the new list is the upsert of the old one |

## Left out

- The token codec (forumApi/features/auth/utils/token.js, forumApi/test.js) is left out. It wraps `jose` (JWS, JWE with `dir`/A256GCM, JWT). Sealing a login payload and `jwt.verify` are uninterpreted function parameters.
- Cryptography and randomness are not computed. HMAC-SHA256, `crypto.randomBytes`, bcrypt's hash, compare and salt generation are parameters. Whether the dummy hash of the current login equalises timing is not modelled; only "exactly one `compare`" is.
- `AuthService.ChangeUserPasswordWithVerification`: the call at forumApi/features/auth/auth.service.js:66 goes to `AuthModel.changeUserPassword`, which auth.model.js does not export, so the source throws a TypeError at that point. The model performs the update that auth.model.js does export (`updatePassword`).
- `Credentials.UserStore.UpdateProfile` leaves out the guard of forumApi/features/users/user.model.js:28, which as written refuses every update (see "## Findings"); it models the UPDATE the guard stands in front of. `created_at`, which `RETURNING` also names, is not a column of the model.
- `Credentials.UserStore.Create` does not model the `role` column or `created_at`. forumApi/features/auth/auth.queries.js:4-6 inserts `role = 'user'` and returns `id, username, email, role, created_at`. The older forumApi/models/user.model.js:5-7 leaves `role` to the schema default, which is not part of this model. `Create`'s result stands for the returned columns less `role` and `created_at`. No modelled path reads the role of a stored user; the login payloads carry only the id, and both register controllers (forumApi/features/auth/auth.controller.js:6-7, forumApi/controllers/auth.controller.js:10-11) discard the result.
- `AuthService.RegisterUser` returns what `Create` returns, so the `role` and `created_at` that `registerUser` hands back are not part of its result.
- `UserService.UpdateUserProfile` calls the store update without the guard of forumApi/features/users/user.model.js:28. As written, that guard refuses every existing user with a 401 (see "## Findings"), so the success branch here models the evidently intended code, not the code as written.
- `Credentials.UserStore.Create` and `Credentials.UserStore.UpdateProfile` report a clash on the email before one on the username. The schema is not part of this model, so that order is assumed; it decides which ConflictError `UserService.UpdateUserProfile` gives when both collide.
- forumApi/features/posts/post.service.js:4 imports `CommentModel` from post.model.js, which has no `findByPostId`. `getCommentsByPostId` is a pass-through and is not modelled. Neither are `createPost` and `getAllPosts` in both post services, or `getCommentsByPostId` in both comment services.
- Data access is not modelled: the SQL builders (`*.queries.js`), the models' round-trips, the transactions and the `FOR UPDATE` locks. The tables are abstract stores (`Tables.Table`, `Credentials.UserStore`). The `author_username` join of `findByIdWithAuthor` and `findAll` is not modelled. The legacy model's `create`/`update`/`remove` are not modelled separately: the services' updates go through `PostModel.Update` and `Tables.Table`.
- Wiring is left out: routers, controllers, forumApi/features/index.js, forumApi/routes/*, and the `csrfMiddleware` mis-imports at forumApi/middleware/index.js:3 and auth.routes.js:4.
- Configuration and infrastructure are left out: the cookie option literals, config, database, logger, request logger, not-found handler, server, app and CORS wrapper. `isProd` is a parameter of the error handler, and the JWT expiry setting is a parameter of the legacy login.
- The Joi and express-validator schemas (forumApi/validators/*, user.validators.js) are evaluated by libraries outside this model.
- Network and UI are left out: `useApi`, `fetchTags`, `fetchPostAndComments`, `deletePost`, the confirm/alert dialogs, useScrollEffects.ts, main.ts and loader.ts. Every request's outcome is an input.
- `Feed.PostFeed.FetchPosts` runs its request synchronously. Two fetches interleaving around `await` (the in-flight guard on `isLoading`) are not modelled beyond the guard's own test.
- `MetroStore`: latitude and longitude are `real`. They are only stored, never computed, so floating point plays no part. The source mutates the found object in place. The model replaces the element of the sequence, so aliasing of that object elsewhere is not modelled.
- Numbers are integers: `parseInt` reads leading decimal digits, with an optional sign, after leading white space. NaN is `None`. `-0`, fractions and precision above 2^53 are not modelled.
- `Strings.ToLower` folds ASCII letters only; JavaScript's `toLowerCase` also folds other scripts. `Strings.IsSpace` is the white-space set of `\s` and `trim()` (the ASCII white space, the no-break space, the Unicode space separators, the line and paragraph separators and the BOM).
- Lengths are counted in characters; JavaScript's `length` counts UTF-16 code units, so a character outside the Basic Multilingual Plane counts once here and twice in the source (the 1000-character comment limit, the password lengths).
- `AuthValidation`: a form field that is present always holds a string. A field present with the value `undefined` is not modelled.
- The order of keys in a JSON body is not modelled (rows are maps).
- The `message` key of the error handler's body, which the documentation describes, is modelled as the key the code writes (`error`).

## Findings

| source | as written | input that shows it | evidently intended | confidence | as-written member | corrected member |
|---|---|---|---|---|---|---|
| forumApi/features/posts/post.service.js:20-21 | `findByIdWithAuthor` is called without `await`, so `!post` tests a pending Promise, which is always truthy; no NotFoundError is ever thrown, and a missing post resolves to `undefined` | any `postId` that no post has | await the lookup and throw NotFoundError 'Post non trouvé.' (404), as forumApi/services/post.service.js:14-17 does | high; not executed | PostService.GetPostByIdAsWritten (with PostService.MissingPostNotReported) | PostService.GetPostById |
| forumApi/features/users/user.model.js:23-28 | the row locked by `selectUserIdForUpdate` holds only `id` (forumApi/features/users/user.queries.js:21-30), so `user.email !== email` holds for every string and every update of an existing user throws AuthenticationError 'Les informations ne correspondent pas à l’état actuel.' | any existing user id with any username and email | the UPDATE runs for an existing user, with its unique violations reaching the 409 mapping of forumApi/features/users/user.service.js | medium; not executed | Credentials.ProfileGuardAsWritten (with Credentials.ProfileUpdateAlwaysRefused) | Credentials.UserStore.UpdateProfile |
