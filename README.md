# xblog core in Dafny

This project models the domain core of xblog, a Spring blog backend. Users register and log in. They manage their profile and write posts that have a URL slug and an optional image. The model covers:

- **Slugs** (`slug_util.dfy`, `post_service.dfy`). `toSlug` is written as functions over strings, one per stage. The probing loops that pick a free slug (`base`, `base-1`, `base-2`, ...) are methods. They are proved to return the *first* free candidate and to terminate.
- **Posts** (`post_service.dfy`). The blog table is a class holding `rows: map<Id, PostRow>` and its IDENTITY counter. `PostService` holds the table, the user service, the file store and the `posts` cache (a `map` field). Create, read, update, delete and image lookup are methods.
  - Each method states the new table, the new cache, the new set of files and the result, for every branch of the source.
  - Each method keeps an invariant:
    - slugs are pairwise distinct (the unique index);
    - every author exists;
    - no stored image path holds `..`;
    - every cached post equals the stored post, except for the author name copied into it.
- **Users** (`user_service.dfy`). The user table, with unique usernames and emails. The `users` and `userProfiles` caches are kept coherent with it.
- **Authentication** (`auth_service.dfy`). `register` and `login`, over a password encoder, an authentication manager and a token generator. The service receives these three as functions.
- **Mappers** (`post_mapper.dfy`, `user_mapper.dfy`). The mappers that build responses are functions. The in-place update helpers are module-level methods that modify an entity object (the classes of `entities.dfy`), with frame conditions.
- **Upload handling** (`file_storage.dfy`). Image validation, the stored path, and the `..` guard. The upload directory is modelled as a set of relative paths.
- **Error mapping** (`exception_handler.dfy`). The global exception handler is a total function from an exception (`exceptions.dfy`) to a status and an unsuccessful response body.

Exceptions are values: every operation returns `Result<T>`, either `Ok(value)` or `Err(exception)`. The clock, the image UUID, password hashing, authentication and token generation are parameters.

Some behaviours are kept as the code has them:

- `updatePost` deletes the old image file before it validates the new upload. A refused upload therefore leaves the post without its image file.
- Saving a post with a null title or content is refused by the store. The handler then reports "Username or email already in use" (`ExceptionHandler.NullColumnReadsAsDuplicateCredentials`).
- Registration compares emails ignoring case (in the model, the case of ASCII letters only; see "Left out"). A profile update compares them exactly (`Auth.CaseVariantEmailOnlyRefusedAtRegistration`).
- A cached post keeps its author's old username after a profile change. Only the author name in a cached post may be stale.
- In `updateProfile` the caches are evicted inside the method, before the transaction commits. A profile update that the store refuses at commit (a null username or email) has therefore already evicted both entries. This is what the code does. It differs from the expectation that a failed update leaves the caches as they were.

## Model

| member | source | states |
|---|---|---|
| SlugUtil.ToSlug | src/main/java/com/blog/xblog/common/util/SlugUtil.java:8-18 | the result is empty exactly when the input is null; every character is a-z, 0-9 or '-' |
| SlugUtil.NothingSurvivesGivesPost | src/main/java/com/blog/xblog/common/util/SlugUtil.java:12-17 | when no character survives trimming, lowering and filtering, the slug is "post" |
| SlugUtil.BlankTitleGivesPost | src/main/java/com/blog/xblog/common/util/SlugUtil.java:9-17 | a blank title gives "post"; null gives "" |
| SlugUtil.ToSlugIdempotent | src/main/java/com/blog/xblog/common/util/SlugUtil.java:12-17 | slugging a slug changes nothing |
| SlugUtil.RemoveDisallowedKeeps | src/main/java/com/blog/xblog/common/util/SlugUtil.java:15 | the filter leaves only a-z, 0-9, whitespace and '-', keeps such text unchanged and never lengthens it |
| SlugUtil.HyphenateSpacesProps | src/main/java/com/blog/xblog/common/util/SlugUtil.java:16 | after the replacement no whitespace is left; text without whitespace is unchanged; non-empty text stays non-empty |
| SlugUtil.WhitespaceRunBecomesOneHyphen | src/main/java/com/blog/xblog/common/util/SlugUtil.java:16 | a maximal run of whitespace becomes exactly one '-' |
| SlugUtil.HyphensAreKept | src/main/java/com/blog/xblog/common/util/SlugUtil.java:15-16 | existing hyphens survive: "a - b" gives "a---b" |
| SlugUtil.TrailingHyphenPossible | src/main/java/com/blog/xblog/common/util/SlugUtil.java:13-16 | trimming precedes filtering, so "hello !" gives "hello-" |
| SlugUtil.TwoWordSlug | src/main/java/com/blog/xblog/common/util/SlugUtil.java:12-17 | two words of letters and digits joined by a space give the lowered words joined by '-' |
| SlugUtil.MyTitleSlug | src/main/java/com/blog/xblog/common/util/SlugUtil.java:12-17 | "My Title" gives "my-title" |
| SlugUtil.NewTitleSlug | src/main/java/com/blog/xblog/common/util/SlugUtil.java:12-17 | "New Title" gives "new-title" |
| SlugUtil.HelloSlug | src/main/java/com/blog/xblog/common/util/SlugUtil.java:12-17 | "Hello" gives "hello" |
| Posts.CandidateInjective | src/main/java/com/blog/xblog/blog/post/service/PostService.java:145 | distinct counters give distinct candidates |
| Posts.CandidateNotEarlier | src/main/java/com/blog/xblog/blog/post/service/PostService.java:141-148 | no earlier probe repeats the current one, so each failed probe is a new taken slug (the termination argument) |
| Posts.FirstFreeUnique | src/main/java/com/blog/xblog/blog/post/service/PostService.java:141-148 | the probing result is determined by the base and the taken slugs |
| Posts.FirstFreeIsFree | src/main/java/com/blog/xblog/blog/post/service/PostService.java:141-148 | the chosen slug is not taken |
| Posts.FreeBaseIsKept | src/main/java/com/blog/xblog/blog/post/service/PostService.java:141-148 | a free base slug is returned unchanged |
| Posts.TakenBaseGetsFirstSuffix | src/main/java/com/blog/xblog/blog/post/service/PostService.java:141-148 | a taken base with "base-1" free gives "base-1" |
| Posts.OwnSlugIsKept | src/main/java/com/blog/xblog/blog/post/service/PostService.java:150-157 | the excluded post never blocks its own slug, and probing from that slug keeps it |
| Posts.InsertKeepsStoreInvariant | src/main/java/com/blog/xblog/blog/post/service/PostService.java:49-68 | inserting a post with a free slug, a stored author and a safe image path keeps slugs distinct and the cache coherent |
| Posts.ReplaceKeepsStoreInvariant | src/main/java/com/blog/xblog/blog/post/service/PostService.java:103-110 | rewriting a post with a slug no other post holds, then evicting it, keeps the invariant |
| Posts.RemoveKeepsStoreInvariant | src/main/java/com/blog/xblog/blog/post/service/PostService.java:122-123 | removing a post and evicting it keeps the invariant |
| Posts.BlogRepository.FindBySlug | src/main/java/com/blog/xblog/blog/post/repository/BlogRepository.java:11 | finds a post exactly when some stored post has the slug |
| Posts.BlogRepository.FindBySlugAndIdNot | src/main/java/com/blog/xblog/blog/post/repository/BlogRepository.java:13 | finds a post exactly when a post other than the excluded id has the slug |
| Posts.BlogRepository.Save | src/main/java/com/blog/xblog/blog/entity/BlogEntity.java:40-51 | a null title or content is refused with nothing stored; a new post gets the next identity value; an existing one is overwritten |
| Posts.BlogRepository.Delete | src/main/java/com/blog/xblog/blog/post/service/PostService.java:123 | the row is removed and nothing else changes |
| Posts.PostService.FindPostOrThrow | src/main/java/com/blog/xblog/blog/post/service/PostService.java:136-139 | "Post not found with id N" exactly when the id is not stored; otherwise the stored post with its author |
| Posts.PostService.EnsureUniqueSlug | src/main/java/com/blog/xblog/blog/post/service/PostService.java:141-148 | returns the first candidate not stored, every earlier candidate being stored |
| Posts.PostService.EnsureUniqueSlugExcluding | src/main/java/com/blog/xblog/blog/post/service/PostService.java:150-157 | the same, ignoring the slug of the excluded post |
| Posts.PostService.GetPost | src/main/java/com/blog/xblog/blog/post/service/PostService.java:71-75 | a cache hit is returned as cached; a miss loads, maps and caches; a missing id gives "Post not found with id N"; any answer is the stored post apart from the author name |
| Posts.PostService.CreatePost | src/main/java/com/blog/xblog/blog/post/service/PostService.java:44-69 | an unknown author gives "Author not found with id N" with nothing stored; otherwise one post with the first free slug, the request's fields and the uploaded image path is inserted; a refused image rolls the insert back |
| Posts.PostService.InsertPost | src/main/java/com/blog/xblog/blog/post/service/PostService.java:57-68 | the insert, then the optional image; the result is the stored post's view |
| Posts.PostService.AttachImage | src/main/java/com/blog/xblog/blog/post/service/PostService.java:61-65 | a refused upload restores the table; an accepted one is stored and its path saved on the post |
| Posts.PostService.UpdatePost | src/main/java/com/blog/xblog/blog/post/service/PostService.java:87-111 | missing or foreign post: the matching "not found" with nothing changed; otherwise the old image is deleted and the new one stored, title and content are replaced, a non-blank title re-derives the first free slug excluding the post, and only success evicts the cached post |
| Posts.PostService.ReplaceImage | src/main/java/com/blog/xblog/blog/post/service/PostService.java:97-101 | the old file is deleted before the upload is validated; only the image path of the post changes |
| Posts.PostService.WriteUpdate | src/main/java/com/blog/xblog/blog/post/service/PostService.java:103-110 | title and content replaced, slug kept or re-derived, the row saved, the cached post evicted |
| Posts.PostService.DeletePost | src/main/java/com/blog/xblog/blog/post/service/PostService.java:112-124 | missing or foreign post: the matching "not found" with nothing changed; otherwise the row and the cache entry are removed and the image path is handed to the file store |
| Posts.PostService.GetPostImage | src/main/java/com/blog/xblog/blog/post/service/PostService.java:126-134 | null for a null or blank image path; otherwise the stored file when present; never "Invalid path" |
| PostMapper.ToPostResponse | src/main/java/com/blog/xblog/common/mapper/PostMapper.java:18-35 | null exactly for null; the post's fields copied; author id and name from the author, or null without one |
| PostMapper.ToPostResponses | src/main/java/com/blog/xblog/common/mapper/PostMapper.java:37-45 | empty for null; otherwise the same length and order, element by element |
| PostMapper.ToBlogEntity | src/main/java/com/blog/xblog/common/mapper/PostMapper.java:47-64 | null exactly when the request or author is null; otherwise a new post without id or image carrying the given fields |
| PostMapper.ApplyUpdate | src/main/java/com/blog/xblog/common/mapper/PostMapper.java:66-74 | title, content (null included) and update time are overwritten; id, slug, author, creation time and image are untouched; a null argument changes nothing |
| UserMapper.ToUserResponse | src/main/java/com/blog/xblog/common/mapper/UserMapper.java:16-28 | null exactly for null; id, username, email and timestamps copied, no password |
| UserMapper.ToUserResponses | src/main/java/com/blog/xblog/common/mapper/UserMapper.java:30-38 | empty for null; otherwise the same length and order |
| UserMapper.ToUserProfileResponse | src/main/java/com/blog/xblog/common/mapper/UserMapper.java:40-52 | null exactly for null; the same five fields |
| UserMapper.ApplyProfileUpdate | src/main/java/com/blog/xblog/common/mapper/UserMapper.java:54-61 | only username and email change; a null argument changes nothing |
| Users.UserRepository.FindById | src/main/java/com/blog/xblog/user/service/UserService.java:44-46 | null exactly when the id is not stored; otherwise a new entity holding the row |
| Users.UserRepository.FindByUsername | src/main/java/com/blog/xblog/user/repository/UserRepository.java:11 | none exactly when the name is null or no user has it |
| Users.UserRepository.FindByEmail | src/main/java/com/blog/xblog/user/repository/UserRepository.java:13 | none exactly when the email is null or no user has it (exact comparison) |
| Users.UserRepository.Save | src/main/java/com/blog/xblog/user/entity/UserEntity.java:41-52 | a null username or email is refused with nothing stored; a new user gets the next identity value; an existing one is overwritten |
| Users.UserService.FindUserOrThrow | src/main/java/com/blog/xblog/user/service/UserService.java:79-82 | "User not found with id N" exactly when the id is not stored |
| Users.UserService.GetById | src/main/java/com/blog/xblog/user/service/UserService.java:31-35 | the stored user's view, cached under its id; a missing id caches nothing |
| Users.UserService.GetProfileById | src/main/java/com/blog/xblog/user/service/UserService.java:37-41 | the stored user's profile, cached under its id; a missing id caches nothing |
| Users.UserService.EvictUserCaches | src/main/java/com/blog/xblog/user/service/UserService.java:69-77 | the id leaves both user caches; nothing else changes |
| Users.UserService.UpdateProfile | src/main/java/com/blog/xblog/user/service/UserService.java:48-67 | missing user, then a username held by another user, then an email held by another user, are refused with nothing changed; otherwise both caches drop the user and the row gets the new username, email and update time (a null one is refused by the store) |
| Users.UserService.WriteProfile | src/main/java/com/blog/xblog/user/service/UserService.java:60-66 | the write and eviction once both names are free |
| Auth.CaseVariantEmailOnlyRefusedAtRegistration | src/main/java/com/blog/xblog/auth/service/AuthService.java:45 | for every table: an address equal to a stored one ignoring case, but to none exactly, is refused at registration and free for a profile update of any user |
| Auth.CaseVariantExample | src/main/java/com/blog/xblog/auth/service/AuthService.java:45 | such a table exists: "A@x" against a stored "a@x" |
| Auth.AuthService.Register | src/main/java/com/blog/xblog/auth/service/AuthService.java:39-67 | a taken username, then an email taken ignoring case, are refused with nothing stored; otherwise exactly one user with the encoded password is added under the next id and a "Bearer" response with expiry 0 and the user's view is returned, or the insert is rolled back when authentication fails |
| Auth.AuthService.Login | src/main/java/com/blog/xblog/auth/service/AuthService.java:69-82 | an authentication failure comes first; an authenticated name with no stored user gives "Invalid credentials"; otherwise the token, "Bearer", 0 and that user's view |
| FileStorage.ValidateImage | src/main/java/com/blog/xblog/common/storage/FileStorageService.java:38-44 | accepted exactly for image/jpeg or image/png of at most 5 MiB; the content type is checked first |
| FileStorage.Extension | src/main/java/com/blog/xblog/common/storage/FileStorageService.java:46 | "png" exactly for image/png, else "jpg" |
| FileStorage.ResolveAndValidateRelative | src/main/java/com/blog/xblog/common/storage/FileStorageService.java:83-92 | "Invalid path" exactly when the path contains ".." |
| FileStorage.GeneratedPathIsSafe | src/main/java/com/blog/xblog/common/storage/FileStorageService.java:46-49 | a generated path never contains "..", so its guard never refuses it |
| FileStorage.HarmlessDotsRefused | src/main/java/com/blog/xblog/common/storage/FileStorageService.java:84-86 | "a..b" is refused |
| FileStorage.FileStorageService.SavePostImage | src/main/java/com/blog/xblog/common/storage/FileStorageService.java:33-59 | no file or an empty one: null, nothing written; a refused upload: its error, nothing written; otherwise "posts/ID/UUID.EXT" is written and returned |
| FileStorage.FileStorageService.DeleteByRelativePath | src/main/java/com/blog/xblog/common/storage/FileStorageService.java:61-70 | null or blank: nothing; ".." refused; otherwise the file is gone |
| FileStorage.FileStorageService.GetResource | src/main/java/com/blog/xblog/common/storage/FileStorageService.java:72-81 | null for a null or blank path or a missing file; ".." refused; otherwise the file |
| ExceptionHandler.FieldErrorMessages | src/main/java/com/blog/xblog/common/exception/GlobalExceptionHandler.java:72-74 | one "field: message" per binding error, in order |
| ExceptionHandler.Handle | src/main/java/com/blog/xblog/common/exception/GlobalExceptionHandler.java:32-139 | never successful; error details exactly for validation failures; each exception class gets its status and message |
| ExceptionHandler.OnlyApiMessagesReachTheClient | src/main/java/com/blog/xblog/common/exception/GlobalExceptionHandler.java:32-139 | outside the application's own exceptions the message is a fixed one and does not depend on the exception's message |
| ExceptionHandler.StatusIsAnError | src/main/java/com/blog/xblog/common/exception/GlobalExceptionHandler.java:32-139 | every status is an error status, and 400, 401 or 500 outside the application's own exceptions |
| ExceptionHandler.NullColumnReadsAsDuplicateCredentials | src/main/java/com/blog/xblog/common/exception/GlobalExceptionHandler.java:83-91 | a refused NOT NULL column is reported as 400 "Username or email already in use" |
| ExceptionHandler.PersistenceCauseDepth | src/main/java/com/blog/xblog/common/exception/GlobalExceptionHandler.java:113-129 | a persistence error two causes deep gives 400; three causes deep, 500 |

## Left out

- Token signing and verification (the JWT provider) are left out. The token generator is a function the auth service receives.
- Spring's cache proxies, Redis and the fail-open cache error handler are left out. Each cache is a map field, and cache backend failures are not modelled. Eviction therefore never fails.
- Concurrency and transactions are left out: two creators racing for a slug, and isolation. The rollbacks the code relies on are written out where they matter: a refused image in createPost, and failed authentication in register.
- HTTP controllers, request validation annotations and the response envelope's timestamp and payload are left out. So is the controller's choice of image media type.
- Filesystem work is left out: directory creation, writing, `deleteIfExists`, `Files.isRegularFile`, and URL resources. The upload directory is a set of relative paths.
- FileStorage.ResolveAndValidateRelative: models only the ".." test. The `normalize`/`startsWith` test is not modelled. An absolute path would resolve outside the upload directory and be refused there. The model accepts it. Stored paths are always generated paths, which both tests accept.
- FileStorage.FileStorageService.GetResource: a directory at the path is treated as a file. `isRegularFile` is not modelled.
- SlugUtil.ToSlug: lower-cases ASCII letters only. Locale-sensitive Unicode lower-casing is not modelled.
- Auth.AuthService.Register: compares emails ignoring the case of ASCII letters only. Java's `equalsIgnoreCase` also folds non-ASCII letters, so "Ä@x.com" against a stored "ä@x.com" is refused by the code but accepted by the model. Unicode case mapping tables are not modelled.
- Posts.PostService.EnsureUniqueSlug: the counter is unbounded. Java `int` overflow after 2^31 probes is not modelled.
- The repository queries are choices over the stored rows. Which matching row a query returns is left open. The unique constraints make the match unique anyway.
- Posts.PostService.Valid: states that every post's author exists. This holds because no operation of the core deletes users.
- `listPosts` is left out. It only delegates to the repository and to `toPostResponses`, and both are modelled. `UserService.findById` is modelled by `Users.UserRepository.FindById`, to which it delegates.
- NotFoundException.java is not part of this model. Its status is taken to be 404, like the handler's other application exceptions.
- RegistrationRequest, UserResponse and UserProfileResponse are not part of this model. Their fields are taken from their uses in the services and mappers.
- The exact exception the store raises for a null NOT NULL column is modelled as a data integrity violation. Hibernate may raise it at flush time instead.
- Posts.PostService.UpdatePost: a failure after the image step does not undo the file changes. File writes are outside the transaction.
- Users.UserService.UpdateProfile: evicts both caches even when the store refuses the update (see above).
