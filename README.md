# Per-user file storage gateway: access control and path containment

A model, in Dafny, of the core of a PHP service that keeps one directory tree per user under a
storage root and serves it over HTTP after a login. The model covers:

- **Path resolution** (`paths.dfy`, `storage.dfy`). `joinPath` glues a base and a request path
  with one slash. `normalizePath` replays the parts of a path onto a stack: `""` and `.` are
  skipped, `..` pops and is absorbed at the root. The controller's `getFullPath` accepts a
  normalised path only when the user's root (`<storage root>/<user id>`) is a string prefix
  of it. This check is modelled as written.
- **Storage operations** (`filesystem.dfy`) on a directory tree kept as a map from segment
  lists to nodes: `mkdir` with parents, recursive `rm` (the recursive `deleteDirectory` is a
  recursive method), the listing `dir` with its sorted names, `getFileData` and `upload`.
- **The storage controller** (`controller.dfy`). It has the three routes' callbacks and
  `handleRequest`. That resolves the path and runs the callback. It then turns a returned
  null into `200 {"result": "ok"}`, a RuntimeException into its code and message (with every
  occurrence of the user's root removed), and a TypeError into 400.
- **Tokens** (`tokens.dfy`). `generateToken` signs `{iat, exp = iat + lifetime, userId}`.
  `decodeToken` refuses a bad signature, a token issued in the future, and an expired token
  (`now >= exp`), each with code 400 and the library's message after the service's prefix.
- **Entities** (`entities.dfy`). `Session` and `User` are classes, with the bookkeeping that
  links a user and their sessions.
- **The session table and its sweep** (`sessions.dfy`). The ORM's unit of work (`remove`,
  `persist`, `flush`) and the prePersist listener that schedules every expired session for
  removal before any session is persisted.
- **The authentication middleware** (`middleware.dfy`) and **the login endpoint**
  (`auth.dfy`).

The clock is a parameter `now` in whole seconds. HS256 signing is a pair of functions (a
signer and a reader). bcrypt is a pair of function parameters (`hash`, `verify`). MIME
sniffing is a function parameter (`sniff`).

Where the design and the code differ, the model follows the code:

- **Containment is a string-prefix test.** The design says a resolved path is always a
  descendant of `<root>/<user id>/`. The code checks that `<root>/<user id>` is a string
  prefix of the normalised path, with no trailing slash. So user `1` reaches `<root>/12` with
  the path `../12` (`Storage.UserOneReachesUserTwelve`, `Storage.SiblingReached`). Upload
  file names are joined onto the accepted path without any check: given the name `../x`,
  the controller writes next to the user's root (`Controller.UploadNameEscapes`). The model
  lets a client file name be any string. PHP's own upload parsing reduces it to a base name,
  so this escape needs a name the runtime does not normally deliver. What the check does guarantee is
  stated by `Storage.ResolvedStaysUnderStorage`: the path stays under the storage root, and
  its first segment below the root starts with the user id.
- **Root paths can reach responses.** The design says no absolute storage path reaches a
  response. The code only removes the user's own root from error messages, and removing it
  can bring it back (`Storage.StripCanReassembleBase`). Paths under a sibling user's root
  are not removed at all.
- **The session lookup checks the token only.** The design says a presented token must match
  an unexpired session. The middleware only checks that some stored session has the token.
  The session row's expiry and owner are never read (`Middleware.OnlyTokensMatter`). Expiry
  comes from the token's own `exp`.
- **Lookups follow the column collation.** The design says a login is looked up by
  case-sensitive exact match. Both tables are created with the `utf8mb4_unicode_ci`
  collation, so the database compares logins and tokens ignoring case, accents and trailing
  spaces. The lookups take the collation's equality as a parameter `same`. With logins
  unique under it, a login in another case and the user's password let that user in
  (`Auth.FindUserUpToCollation`).

## Model

| member | source | states |
|---|---|---|
| Paths.JoinPath | src/Services/StorageService.php:17-20 | the result is the base without trailing slashes, one slash, and the path without leading slashes |
| Paths.NormalizePath | src/Services/StorageService.php:28-43 | the stack loop computes `Normalized`: "/" followed by the collapsed segments joined with "/" |
| Paths.NormalizedShape | src/Services/StorageService.php:28-43 | a normalised path starts with "/" and each of its segments is non-empty and neither "." nor ".." |
| Paths.NormalizedIdempotent | src/Services/StorageService.php:28-43 | normalising twice is normalising once |
| Paths.NormalizedOnlyDots | src/Services/StorageService.php:33-40 | a path made only of "", "." and ".." parts normalises to "/" (popping past the root is absorbed) |
| Paths.NormalizedTrailingSlash | src/Services/StorageService.php:33-35 | a trailing slash does not change the normalised path |
| Paths.NormalizedSkipsEmptyAndDot | src/Services/StorageService.php:33-35 | "//" and "/./" each normalise like "/" |
| Paths.ImplodeExplode | src/Services/StorageService.php:30 | joining the exploded parts with "/" gives the path back |
| Paths.ExplodeImplode | src/Services/StorageService.php:42 | exploding slash-free parts joined with "/" gives the parts back |
| Paths.SegmentsOfCanonical | src/Services/StorageService.php:28-43 | a canonical path collapses to exactly its own segments |
| FileSystem.MkdirOutcome | src/Services/StorageService.php:119-126 | 409 when anything exists at the path; when a file blocks a parent, false and no change; otherwise every prefix becomes a directory, old entries are kept, only parents of the path are added, and the tree stays well formed |
| FileSystem.Disk.Mkdir | src/Services/StorageService.php:119-126 | the tree and result are those of `MkdirEffect`, and the disk stays valid |
| FileSystem.RmOutcome | src/Services/StorageService.php:135-144 | 404 and no change when nothing exists; otherwise exactly the entry and everything below it are removed, the rest is kept, and a file is removed alone |
| FileSystem.Disk.Rm | src/Services/StorageService.php:135-144 | the tree and result are those of `RmEffect` |
| FileSystem.Disk.DeleteDirectory | src/Services/StorageService.php:152-167 | false and no change for a non-directory; otherwise, after deleting each child in turn, exactly the directory's subtree is gone |
| FileSystem.PruneAllChildren | src/Services/StorageService.php:157-166 | removing every child's subtree and then the directory is removing the directory's subtree |
| FileSystem.SortedSpec | src/Services/StorageService.php:58 | the listing order holds each name once, exactly the set's names, in ascending order |
| FileSystem.SortNames | src/Services/StorageService.php:58 | the selection loop produces the sorted order of the names |
| FileSystem.ListingNames | src/Services/StorageService.php:52-61 | the listed names are exactly the directory's entries, never "." or "..", each once, in ascending order |
| FileSystem.Disk.ListDir | src/Services/StorageService.php:52-61 | 404 with the path for a non-directory, otherwise the sorted names joined by spaces |
| FileSystem.FileDataResult | src/Services/StorageService.php:70-91 | succeeds exactly for a file, otherwise 404; the content is the file's, the size is its length, and the MIME type is never empty |
| FileSystem.Disk.GetFileData | src/Services/StorageService.php:70-91 | the result is `FileDataResult` of the current tree |
| FileSystem.UploadOutcome | src/Services/StorageService.php:101-110 | a failed upload is 400 with no change; a successful one writes exactly one file and keeps every other entry and well-formedness |
| FileSystem.Disk.Upload | src/Services/StorageService.php:101-110 | the tree and result are those of `UploadEffect` |
| Storage.IntToStringRoundTrip | src/Controllers/StorageController.php:125 | the user id's decimal text reads back as the id |
| Storage.StoragePathShape | src/Controllers/StorageController.php:23 | the storage root is a canonical path whose last segment is "storage" |
| Storage.BasePathCanonical | src/Controllers/StorageController.php:125 | the user's root is the storage root with one more segment, the user id, and is already normalised |
| Storage.RootResolves | src/Controllers/StorageController.php:135-145 | the empty path and "/" resolve to the user's root itself |
| Storage.ResolvedStaysUnderStorage | src/Controllers/StorageController.php:135-145 | an accepted path is canonical, lies under the storage root, and its first segment below the root starts with the user id |
| Storage.SiblingEscape | src/Controllers/StorageController.php:137-142 | "../s" for any sibling name s that starts with the user id is accepted and resolves to that sibling directory |
| Storage.SiblingReached | src/Controllers/StorageController.php:137-142 | such a sibling is neither the user's root nor below it |
| Storage.UserOneReachesUserTwelve | src/Controllers/StorageController.php:137-142 | user 1's request "../12" is accepted and resolves to user 12's root, outside user 1's root |
| Storage.StripAbsent | src/Controllers/StorageController.php:112 | a message with no occurrence of the root is sent unchanged |
| Storage.ErrorHidesBase | src/Controllers/StorageController.php:112 | a message made of slash-free words, the root and a remainder without the root loses exactly the root |
| Storage.StripCanReassembleBase | src/Controllers/StorageController.php:112 | removing the root from a message can leave the root in it |
| Storage.RootCheckIsEquality | src/Controllers/StorageController.php:85 | for an accepted path, the case-insensitive root comparison is plain equality |
| Controller.StorageController.constructor | src/Controllers/StorageController.php:18-24 | the storage root is the normalised "../../storage/" next to the source directory |
| Controller.StorageController.SetBasePath | src/Controllers/StorageController.php:123-126 | the user's root is the storage root, "/" and the user id |
| Controller.StorageController.GetFullPath | src/Controllers/StorageController.php:135-145 | the result is `FullPath`: the normalised join when the user's root is its prefix, 403 otherwise |
| Controller.StorageController.ReadCallback | src/Controllers/StorageController.php:31-48 | a directory is listed, anything else is read as a file download or raises 404 |
| Controller.StorageController.WriteCallback | src/Controllers/StorageController.php:56-76 | mkdir of the trimmed path, its error raised only without uploads, then the uploads in order until the first failure |
| Controller.StorageController.RemoveCallback | src/Controllers/StorageController.php:84-89 | the user's root is refused with 400, anything else goes to rm |
| Controller.StorageController.HandleRequest | src/Controllers/StorageController.php:100-118 | the response and new tree are those of `Handled`: resolve the path, run the route's callback, translate its completion |
| Controller.StorageController.GetPathContent | src/Controllers/StorageController.php:29-49 | a GET request is handled with the read callback |
| Controller.StorageController.SetPathContent | src/Controllers/StorageController.php:54-77 | a POST request is handled with the write callback and its uploads |
| Controller.StorageController.DeletePathContent | src/Controllers/StorageController.php:82-90 | a DELETE request is handled with the remove callback |
| Controller.ForbiddenForEveryAction | src/Controllers/StorageController.php:104-114 | a rejected path is answered with 403 and the fixed message for every route, and the tree is untouched |
| Controller.RootNotDeletable | src/Controllers/StorageController.php:84-87 | deleting any path that resolves to the user's root is refused with 400 and changes nothing |
| Controller.RootSpellings | src/Controllers/StorageController.php:84-87 | in particular no path, "" and "/" name the root and are refused |
| Controller.RemoveBelowRoot | src/Controllers/StorageController.php:84-89 | deleting an accepted path below the root removes its subtree, and answers ok exactly when something was there |
| Controller.WriteTwiceConflicts | src/Controllers/StorageController.php:56-66 | creating a fresh directory answers ok and creates it; repeating the request answers 409 |
| Controller.UploadIntoExistingDir | src/Controllers/StorageController.php:60-74 | an upload into an existing directory still succeeds (the 409 is swallowed) and adds exactly that file |
| Controller.UploadNameEscapes | src/Controllers/StorageController.php:69-73 | an upload named "../x" is written next to the user's root, outside it |
| Controller.ReadListsDirectory | src/Controllers/StorageController.php:31-35 | reading a directory answers 200 with its sorted names joined by spaces |
| Controller.ReadDownloadsFile | src/Controllers/StorageController.php:37-46 | reading a file answers with its content, size and base name, and changes nothing |
| Controller.ReadMissingReported | src/Controllers/StorageController.php:111-114 | reading a missing path answers 404 with the path below the user's root and without the root |
| Controller.HandledKeepsWellFormed | src/Controllers/StorageController.php:100-118 | every request leaves a well-formed tree |
| Controller.UploadsOnlyWriteTargets | src/Controllers/StorageController.php:68-75 | the uploads remove nothing and change only the entries they are named for |
| Tokens.Decode | src/Services/TokenService.php:61-69 | every refusal has code 400 and starts with the service's prefix |
| Tokens.DecodedIsLive | src/Services/TokenService.php:61-69 | a token decodes exactly when its signature verifies and iat <= now < exp, and then to its claims |
| Tokens.GeneratedDecodes | src/Services/TokenService.php:40-52 | a generated token decodes to its claims from its issue up to its expiry |
| Tokens.GeneratedOutsideWindow | src/Services/TokenService.php:40-69 | before its issue a generated token is refused as not yet valid, and from its expiry on as expired |
| Entities.Session.constructor | src/Entities/Session.php:70-73 | a new session is created at the current time |
| Entities.Session.SetToken | src/Entities/Session.php:120-123 | sets the token and nothing else |
| Entities.Session.SetExpiresAt | src/Entities/Session.php:140-143 | sets the expiry and nothing else |
| Entities.Session.SetUser | src/Entities/Session.php:100-103 | storing null in the non-nullable owner fails with a TypeError and keeps the owner |
| Entities.User.constructor | src/Entities/User.php:61-64 | a new user has no sessions |
| Entities.User.SetLogin | src/Entities/User.php:101-104 | sets the login and nothing else |
| Entities.User.SetPassword | src/Entities/User.php:113-116 | stores the hash of the password |
| Entities.User.AddSession | src/Entities/User.php:147-153 | a new session is appended and gets this user as its owner; adding a present one changes nothing |
| Entities.User.RemoveSession | src/Entities/User.php:162-168 | an absent session changes nothing; a present one is taken out, then a TypeError is raised and its owner is kept |
| Entities.RemoveFirstExact | src/Entities/User.php:165 | in a duplicate-free collection, removal takes out exactly that session |
| Entities.RemoveFirstDistinct | src/Entities/User.php:165 | removal keeps the collection duplicate-free |
| Entities.AddKeepsDistinct | src/Entities/User.php:149-150 | adding an absent session keeps the collection duplicate-free |
| Sessions.SweepRemovesExpired | src/Listeners/SessionCleanupListener.php:52-66 | removing what the query finds leaves exactly the rows with expiresAt >= now, of every user, with their values |
| Sessions.SweepIdempotent | src/Listeners/SessionCleanupListener.php:52-66 | a second sweep at the same or a later time subsumes the first |
| Sessions.CommittedSpec | src/Controllers/AuthController.php:78-79 | flush keeps the rows not scheduled for removal and writes the k-th insert under the k-th fresh id, and nothing else |
| Sessions.SessionCleanupListener.PrePersist | src/Listeners/SessionCleanupListener.php:44-67 | nothing for a non-session entity; otherwise exactly the expired rows are added to the removals, and nothing else changes |
| Sessions.EntityManager.Persist | config/doctrine.php:51-52 | the listener runs before a session's row is scheduled for insertion |
| Sessions.EntityManager.Flush | src/Controllers/AuthController.php:79 | the table becomes `Committed` of the schedules, fresh ids are used up, and the schedules are cleared |
| Sessions.PersistThenFlush | src/Controllers/AuthController.php:78-79 | persisting one session and flushing leaves the swept table plus the new row under a fresh id |
| Middleware.MissingHeaderRefused | src/Middlewares/AuthMiddleware.php:84-95 | no `auth` header means 401 with the missing-token message |
| Middleware.OnlyFirstValue | src/Middlewares/AuthMiddleware.php:92 | only the header's first value is used |
| Middleware.UnknownSessionRefused | src/Middlewares/AuthMiddleware.php:104-114 | a token that matches no stored token under the collation is refused with 401, whether or not it would decode |
| Middleware.DecodeFailureIs401 | src/Middlewares/AuthMiddleware.php:61-75 | a token matching a stored one that fails to decode is answered with 401, not the service's 400, and with the service's message |
| Middleware.AcceptedPassesUserId | src/Middlewares/AuthMiddleware.php:66-70 | a token matching a stored one that decodes lets the request reach the handler with the token's userId and nothing else changed |
| Middleware.OnlyTokensMatter | src/Middlewares/AuthMiddleware.php:104-114 | two tables with the same tokens authenticate alike: session expiry and owner are never read |
| Auth.Credentials | src/Controllers/AuthController.php:96-108 | accepted exactly when both fields are present and neither is "" nor "0", otherwise 400 |
| Auth.FindUser | src/Controllers/AuthController.php:122 | the user found has a login the collation equates with the given one, and none is found exactly when no user's login is equated with it |
| Auth.FindUserUpToCollation | src/Migrations/Version20250410164906.php:21-27 | with logins unique under the collation (an equivalence), any login it equates with a user's finds that user |
| Auth.UnknownAndWrongPasswordAlike | src/Controllers/AuthController.php:117-129 | an unknown login and a wrong password get the same 401 response |
| Auth.ZeroIsMissing | src/Controllers/AuthController.php:100-105 | a login or password of "0" is answered as missing |
| Auth.LoginAdmitsOnlyOwner | src/Controllers/AuthController.php:117-129 | only a user whose login the collation equates with the given one, and whose hash the password verifies against, is let in |
| Auth.AuthController.constructor | src/Controllers/AuthController.php:51-57 | keeps the entity manager, the token service and the lifetime |
| Auth.AuthController.CreateSession | src/Controllers/AuthController.php:137-146 | a fresh session created now, with the token signed for the user and expiring lifetime seconds later |
| Auth.AuthController.Login | src/Controllers/AuthController.php:66-87 | on error, the error response and nothing written; on success, one fresh session linked to the user, the table swept plus the new row, and the token and expiry in the response |
| Auth.IssuedTokenAuthenticates | src/Middlewares/AuthMiddleware.php:61-75 | a token handed out by login, while its row is stored, authenticates as its user until its expiry and is refused as expired afterwards |

## Left out

- The clock. `now` is one integer of seconds per operation. The listener's `new DateTime()`,
  the token's `time()` and the session's creation time are taken at slightly different
  instants in the code, but are the same `now` in the model.
- `expires_at` in the login response is formatted as `Y-m-d H:i:s` in the code. The model
  returns the integer time.
- HS256 and the JWT encoding are not modelled. The token service is an abstract signer and
  reader. The library's other refusal messages are the reader's `reason`.
- `password_hash` and `password_verify` (bcrypt) are the parameters `hash` and `verify`.
- `mime_content_type` is the parameter `sniff`. `readfile` and `filesize` give the stored
  content and its length.
- `moveTo` internals. An upload succeeds exactly when the target's parent is a directory and
  the target is not one. A failure's message is the service's prefix and the path, not the
  library's own wording.
- The operating system's own resolution of paths (symbolic links, permissions, I/O failures
  of `unlink` or `rmdir`, the 0777 mode). A path names the entry reached by its collapsed
  segments.
- `scandir` sorts names by byte order. The model compares characters by code point, which is
  the same order for UTF-8 text.
- Routing, dependency injection and Slim's request objects. The storage routes take the user
  id as an integer: the model assumes the middleware set the `userId` attribute. A request
  that reaches them without it is not modelled.
- Nested arrays of uploaded files are not modelled. The uploads are one flat sequence.
- Non-string JSON values for `login` and `password` (numbers, arrays) are not modelled. A
  body field is a string or absent.
- Exceptions other than RuntimeException and TypeError raised inside a callback.
- Controller.StorageController.constructor: the user's root starts as `""` for PHP's
  uninitialised typed property. Every request sets it before reading it.
- Entities.User.constructor: the login and password, uninitialised in PHP (reading them
  before they are set raises an Error), start as `""`.
- Entities.Session.constructor: the token and expiry, uninitialised in PHP, start as `""` and
  `now`.
- Auth.FindUser and Middleware.SessionExists: the collation's own rules (the
  utf8mb4_unicode_ci case, accent and trailing-space folding) are not modelled. It is the
  parameter `same`; only its being an equivalence is used, where a lemma needs it.
- Getters (`getId`, `getLogin`, `getToken`, `getExpiresAt`, `getCreatedAt`, `getSessions`,
  `getPassword`, `getUser`) are plain field reads.
- The ORM is reduced to the sessions table with sequential ids, and the users repository to
  a sequence of `User` objects. `Persist` records the session's row when it is called;
  Doctrine reads it at flush, and nothing changes in between.
- Auth.AuthController.Login: requires a unit of work with nothing scheduled, as at the start
  of each request.
- The user-creation script, migrations, the database and ORM configuration other than the
  listener's registration, and the JSON encoding of responses (a `Response` datatype).
- Concurrency between requests.
