# Blog backend: a verified model of its request handlers and schemas

This project models the core of an Express/Mongoose blog backend in Dafny:
- the post handlers (`createPost`, `getAllPosts`, `getPostBySlug`, `updatePost`, `deletePost`);
- the category handlers (`createCategory`, `getAllCategories`) and the find-or-create loop the post handlers share;
- the Post and User schemas, with their validators, defaults, setters and hooks;
- user registration and login;
- the four upload routes (image, avatar, cover, video).

It also proves what these promise.

The model is organised as follows:
- Each MongoDB collection is a map from record id to record, plus the id the next record gets. `findOne` is the first matching record in id order.
- A Mongoose document whose fields a handler assigns in place is a class: `PostModel.PostDocument` and `UserModel.UserDocument`.
- Each group of collections a set of handlers changes is a class whose methods are the handlers:
  - `ContentStore.Store` holds posts and categories;
  - `AuthController.CredentialStore` holds users;
  - `UploadRoutes.UploadWorkspace` holds the temporary files on disk and the uploads made.
- Every handler's contract gives its status code, its message and the new state for each outcome.
- The invariant each class keeps covers:
  - keys below the next id;
  - every stored record passing its schema's validators;
  - slugs, emails and category names unique;
  - every category a post refers to exists.

Outside libraries are parameters of the model and nothing is assumed about them:
- `slugify`;
- bcrypt's `hash` and `compare`;
- SHA-256;
- `crypto.randomBytes`;
- the clock;
- sharp, ffmpeg and Cloudinary, whose outcome is given as success or an error message.

Modules:
- `Common`: options, roles, the acting user, replies and status codes.
- `Text`: JavaScript `trim`, string length in UTF-16 code units, a lower-casing of the ASCII letters A-Z standing in for `toLowerCase`, code-point string order, hex encoding.
- `Tables`: `findOne`/`find` over a collection.
- `Sorting`: sort as an ordered permutation.
- `PostModel` and `UserModel`: the schemas.
- `CategoryController` and `PostController`: what the handlers compute.
- `ContentStore`: the post and category handlers over the store.
- `AuthController`: registration and login.
- `UploadRoutes`: the upload routes.

Behaviour of the code that the model keeps and that a reader might not expect:
- **The slug is not regenerated for a new title.** At `controllers/postController.js:126` the supplied title is compared with `post.title` after line 118 assigned it. The `trim` setter stores the trimmed title, so the two differ only when the supplied title has space at either end. A post renamed from "Hello" to "World" keeps the slug "hello" (`UpdateKeepsSlug`). A title with surrounding space gets the slug of the untrimmed title (`UpdateSlug`).
- **A stored post with an empty slug gets one on the first save that gives it a title whose slug is not empty.** A post stored with an empty slug is one whose title `slugify` turned into "". The pre-validate hook (`SlugHook`) fills the slug only from the title being saved. A save that keeps that title runs `slugify` on it again and gets "" again (`UpdateSlug`).
- **A disallowed video extension is a 500, not a 400.** The error is thrown inside `processAndUploadVideo` and caught by the route, so the reply is 500 with the message "Invalid video format".
- **A dot-file named ".mp4" is rejected.** Node's `path.extname` gives "" for any name whose only '.' is its first character, and for a name with no '.' at all (`DotFileIsNotVideo`, `NoDotIsNotVideo`).
- **A failed create still uses up its id.** The ObjectId is assigned when the document is built, so the counter moves on even when validation fails.
- **Categories created before a failed save stay.** The find-or-create loop runs before the post is saved.
- **Email lookups normalise the filter.** The email's `lowercase` and `trim` setters also apply to the filter of `User.findOne({ email })`. An email that differs only in case or surrounding space finds the same user (`RegisteredUserFound`).
- **An update that changes nothing keeps `updatedAt`.** Mongoose's `timestamps` hook sets `updatedAt` only when the save modifies some field. A PUT with an empty body, or with the stored values, saves the post unchanged (`EmptyUpdateChangesNothing`).
- **Lengths are counted in UTF-16 code units.** `minlength` and `maxlength` compare against `String.prototype.length`, so a character outside the Basic Multilingual Plane, such as an emoji, counts twice (`Text.JsLength`).
- **Validation sees the plain password.** The validators run before the pre-save hook hashes it. A login's save leaves the hash alone, because the password path is not modified.

## Model

| member | source | states |
|---|---|---|
| `Common.MayModify` | controllers/postController.js:102 | an admin may modify every post, anyone else exactly the posts whose author they are (the check of lines 102 and 145) |
| `Common.ParseRole` | models/User.js:26-30 | the role enum accepts exactly "user", "author" and "admin", and each accepted string is the name of the role it gives |
| `Text.Trim` | models/Post.js:9 | the `trim` setter's result is no longer than its input and has no removable space at either end |
| `Text.TrimIsSlice` | models/Post.js:9 | the `trim` setter's result is the slice of its input left when spaces, and only spaces, are cut off both ends |
| `Text.TrimStartCutsSpace` | models/Post.js:9 | everything trimmed off the front is space |
| `Text.TrimEndCutsSpace` | models/Post.js:9 | everything trimmed off the end is space |
| `Text.TrimStartIsSuffix` | models/Post.js:9 | trimming the front keeps a suffix of the input |
| `Text.TrimEndIsPrefix` | models/Post.js:9 | trimming the end keeps a prefix of the input |
| `Text.TrimOfTrimmed` | models/Post.js:9 | a string with no surrounding space is left as it is |
| `Text.TrimIdempotent` | models/Post.js:9 | trimming twice is trimming once |
| `Text.JsLength` | models/Post.js:8 | the length `maxlength` and `minlength` measure is at least the number of characters and at most twice it |
| `Text.JsLengthConcat` | models/Post.js:8 | the lengths of two pieces of a string add up |
| `Text.JsLengthOfBmp` | models/User.js:10 | the length equals the number of characters exactly when no character lies outside the Basic Multilingual Plane |
| `Text.LowerChars` | models/User.js:16 | the model's lower-casing, which folds only A-Z, maps each character on its own and keeps the length |
| `Text.LowerIdempotent` | models/User.js:16 | lower-casing twice is lower-casing once |
| `Text.LowerTrimCommute` | models/User.js:16-17 | the email's `lowercase` and `trim` setters give the same string in either order |
| `Text.LexLeTotal` | routes/categoryController.js:26 | any two names are ordered one way or the other by `sort({ name: 1 })` |
| `Text.LexLeTransitive` | routes/categoryController.js:26 | the name order is transitive |
| `Text.LexLeAntisymmetric` | routes/categoryController.js:26 | two names each ordered before the other are equal |
| `Text.ToHex` | models/User.js:88 | `toString('hex')` gives two lower-case hex digits per byte |
| `Text.HexRoundTrip` | models/User.js:88 | decoding the hex string of the reset token gives back the random bytes |
| `Tables.FirstKey` | controllers/postController.js:21 | `findOne` answers with a matching record with no matching record before it, and answers nothing exactly when no record matches |
| `Tables.Rows` | controllers/postController.js:59 | `find()` lists the records in id order |
| `Tables.RowsAreValues` | controllers/postController.js:59 | `find()` lists exactly the collection's records |
| `Sorting.SortBy` | controllers/postController.js:62 | sorting a query's result keeps every record, each as often as before |
| `Sorting.SortBySorted` | routes/categoryController.js:26 | under a total preorder, the sorted result is in order |
| `PostModel.Valid` | models/Post.js:5-19 | the validators: a required trimmed title of at most 150 UTF-16 code units and required content; a valid title has 1 to 150 characters |
| `PostModel.NewRecord` | models/Post.js:20-47 | `Post.create` keeps the id, stores the title trimmed and no longer than given, and stamps both timestamps with the creation time |
| `PostModel.NewRecordDefaults` | models/Post.js:20-39 | an omitted cover image, video URL or tags is empty, an omitted language is "en", supplied fields are kept, and the author, slug and categories are as given |
| `PostModel.ValidTitleBounds` | models/Post.js:5-10 | a post passes the validators only if its trimmed title has 1 to 150 UTF-16 code units |
| `PostModel.SlugHook` | models/Post.js:50-59 | the pre-validate hook changes only the slug, keeps a set slug, and fills an empty one from a non-empty title |
| `PostModel.SlugHookIdempotent` | models/Post.js:51 | running the hook twice is running it once |
| `PostModel.FindBySlug` | controllers/postController.js:21-24 | `findOne({ slug })` finds a post with that slug, and nothing exactly when no post has it |
| `PostModel.SaveKeepsSlugsUnique` | models/Post.js:11-15 | a save the unique index lets through keeps the slugs unique |
| `PostModel.PostDocument.Load` | controllers/postController.js:98 | the loaded document stands for the stored record |
| `PostModel.PostDocument.Build` | controllers/postController.js:38-48 | a new document holds the trimmed title, the given slug, author and category ids, and the schema defaults |
| `PostModel.PostDocument.SetTitle` | controllers/postController.js:118 | assigning the title stores it trimmed and changes nothing else |
| `PostModel.PostDocument.PreValidate` | models/Post.js:50-59 | the hook run on the document gives the record SlugHook describes |
| `PostModel.PostDocument.Touch` | models/Post.js:46 | the `timestamps` hook sets `updatedAt` and nothing else |
| `CategoryController.FindByName` | routes/categoryController.js:9 | `findOne({ name })` finds a category with that name, and nothing exactly when none has it |
| `CategoryController.FindOrCreate` | routes/categoryController.js:9-15 | an existing name gives its id and an unchanged table; a new name adds one record under the next id, created by the acting user |
| `CategoryController.FindOrCreateKeepsNamesUnique` | routes/categoryController.js:9-15 | find-or-create keeps the category names unique |
| `CategoryController.ResolveNames` | controllers/postController.js:27-36 | the loop yields one id per name, each of a stored category, and only adds records |
| `CategoryController.ResolveNamesNames` | controllers/postController.js:29-35 | the i-th id is the id of a category called names[i] |
| `CategoryController.ResolveNamesCreated` | controllers/postController.js:31-33 | every record the loop adds is one of the returned ids and was created by the acting user |
| `CategoryController.ResolveNamesKeepsNamesUnique` | controllers/postController.js:27-36 | the loop keeps the category names unique |
| `CategoryController.ResolveReusesExisting` | controllers/postController.js:30 | a name that already has a category resolves to that category |
| `CategoryController.ResolveRepeatedName` | controllers/postController.js:29-34 | a name repeated in one request resolves to one id both times |
| `CategoryController.ResolveCreatesOnePerName` | controllers/postController.js:107-116 | the loop creates at most one category per name, and none for a name that had one |
| `CategoryController.FindOrCreateIdempotent` | routes/categoryController.js:9-10 | a second createCategory with the same name finds the first one's record, changes nothing, and that record is the only one with the name |
| `CategoryController.ByNameIsTotalPreorder` | routes/categoryController.js:26 | ordering categories by name is a total preorder |
| `CategoryController.ListCategories` | routes/categoryController.js:26 | the listing holds every category once and is ordered by name |
| `PostController.CreatedRecord` | controllers/postController.js:38-48 | the created record has the next id, the acting user as author, the loop's ids and a trimmed title |
| `PostController.CreatedRecordFields` | controllers/postController.js:38-48 | a created post has the acting user as author, the loop's category ids, the trimmed title and the creation time, and its slug is the slug of the title as given |
| `PostController.Merged` | controllers/postController.js:118-128 | the assignments never touch the id, the author or the timestamps, and leave a trimmed title |
| `PostController.UpdatedRecord` | controllers/postController.js:118-130 | the saved record keeps id, author and creation time, and is either the stored record unchanged or carries the new `updatedAt` |
| `PostController.UpdateMerge` | controllers/postController.js:118-130 | a falsy field keeps the stored value; supplied tags replace the tags; a non-empty id list replaces the categories; id, author and creation time never change; `updatedAt` becomes now exactly when some other field changed |
| `PostController.UpdatedAtRule` | controllers/postController.js:130 | the `timestamps` hook moves `updatedAt` to now exactly when the saved record differs from the stored one in some other field |
| `PostController.UpdatedRecordStamps` | controllers/postController.js:130 | the saved record is the hooked merge with only `updatedAt` possibly different |
| `PostController.EmptyUpdateChangesNothing` | controllers/postController.js:118-130 | an update with an empty body leaves a stored post with a slug exactly as it was, `updatedAt` included |
| `PostController.UpdateSlug` | controllers/postController.js:118-128 | what the slug becomes after an update: the slug of the supplied title when that title has surrounding space, otherwise the stored slug; if that is empty and the saved title is not, the hook's slug of the saved (trimmed) title |
| `PostController.UpdateSlugChange` | controllers/postController.js:126-128 | an update changes a stored slug only when that slug is empty or the supplied title has surrounding space |
| `PostController.UpdateKeepsSlug` | controllers/postController.js:118-128 | a non-empty slug survives every update whose title has no surrounding space, including one that renames the post |
| `PostController.ListPosts` | controllers/postController.js:59-64 | getAllPosts lists every post once, newest first |
| `PostController.FindPostBySlug` | controllers/postController.js:73-79 | the reply is 404 "Post not found" exactly when no post has the slug, and otherwise 200 with a post that has it |
| `ContentStore.StoreValidAfterCategories` | controllers/postController.js:32 | adding categories keeps every post's categories present |
| `ContentStore.StoreValidAfterSave` | controllers/postController.js:130 | saving a record that passes the validators and the unique index, with existing categories, keeps the store invariant |
| `ContentStore.StoreValidAfterInsert` | controllers/postController.js:38-48 | inserting such a record under the next id keeps the store invariant |
| `ContentStore.AssignFields` | controllers/postController.js:119-124 | each string field becomes the supplied value when truthy and stays otherwise, supplied tags replace the tags, a non-empty id list replaces the categories, and nothing else changes |
| `ContentStore.ApplyUpdate` | controllers/postController.js:118-130 | the document after the update's assignments and the pre-validate and `timestamps` hooks is the record UpdatedRecord gives |
| `ContentStore.Store.FindOrCreateCategories` | controllers/postController.js:27-36 | the loop over the names gives the ids and the category table that ResolveNames specifies, and keeps the invariant |
| `ContentStore.Store.Save` | controllers/postController.js:130 | a save stores the record exactly when it passes the validators and the unique index, and otherwise changes nothing |
| `ContentStore.Store.Insert` | controllers/postController.js:38-48 | `Post.create` uses up the next id and stores the record exactly when it may be saved |
| `ContentStore.Store.CreatePost` | controllers/postController.js:6-54 | createPost: a missing title is 500 with nothing changed; a taken slug is 400 with nothing changed; otherwise the categories are resolved and the post is stored (201) or not (500) |
| `ContentStore.Store.BuildCreated` | controllers/postController.js:27-47 | the categories are resolved first, then the new document takes the next id and the slug hook has run: the result is the record CreatedRecord describes, and each of its categories exists |
| `ContentStore.Store.CreateUnique` | controllers/postController.js:26-50 | past the duplicate check, the categories are resolved, the id is used up, and the created record is stored with 201 or refused with 500 |
| `ContentStore.Store.GetAllPosts` | controllers/postController.js:57-68 | every stored post once, newest first |
| `ContentStore.Store.GetPostBySlug` | controllers/postController.js:71-83 | 404 exactly when no post has the slug, otherwise 200 with one that has it |
| `ContentStore.Store.UpdatePost` | controllers/postController.js:86-136 | updatePost: an unknown id is 404 and a non-author non-admin 403, both with nothing changed; otherwise categories are resolved and the merged record is saved (200) or not (500) |
| `ContentStore.Store.UpdateAuthorized` | controllers/postController.js:106-132 | past the checks, the categories are resolved and the updated record replaces the stored one exactly when it may be saved |
| `ContentStore.Store.MergeLoaded` | controllers/postController.js:106-128 | the categories are resolved as ResolveNames says, the posts are untouched, and the merged record is UpdatedRecord of the stored one and refers only to stored categories |
| `ContentStore.Store.DeletePost` | controllers/postController.js:139-154 | deletePost: 404 for an unknown id, 403 for a non-author non-admin, otherwise exactly that post is removed |
| `ContentStore.Store.CreateCategory` | routes/categoryController.js:4-21 | createCategory: a falsy name is 400 with nothing changed; an existing name is 200 with its record; a new name is 201 with one new record created by the acting user |
| `ContentStore.Store.GetAllCategories` | routes/categoryController.js:24-31 | every category once, ordered by name |
| `UserModel.NormalizeEmail` | models/User.js:16-17 | the email's setters never lengthen it |
| `UserModel.NormalizeEmailEitherOrder` | models/User.js:16-17 | the stored email is the same whichever setter runs first, has no surrounding space and is no longer than the input |
| `UserModel.NormalizeEmailIdempotent` | models/User.js:16-17 | normalising a normalised email changes nothing |
| `UserModel.Valid` | models/User.js:6-23 | the validators: a name of at least 2 and a password of at least 6 UTF-16 code units, a required email and a bio of at most 300 code units; so name and password are not empty and the bio has at most 300 characters |
| `UserModel.NewUser` | models/User.js:5-65 | `User.create` keeps the id, stores the name trimmed and the email no longer than given, and stamps both timestamps with the creation time |
| `UserModel.NewUserDefaults` | models/User.js:26-62 | a new user has the "user" role, an empty bio, no last login and no reset token, and the declared default for each omitted field |
| `UserModel.NewUserValid` | models/User.js:6-23 | a registration passes the validators exactly when the trimmed name has at least 2 UTF-16 code units, the normalised email is not empty and the password has at least 6 code units |
| `UserModel.NewUserStored` | models/User.js:6-18 | a user that passed the validators is stored with a trimmed name of at least 2 UTF-16 code units and a trimmed, non-empty email, whatever its password became |
| `UserModel.UserDocument.Create` | controllers/authController.js:24-32 | `User.create` builds the record NewUser describes, with the password marked modified |
| `UserModel.UserDocument.Load` | controllers/authController.js:55 | the loaded document stands for the stored record, with nothing modified |
| `UserModel.UserDocument.SetLastLogin` | controllers/authController.js:62 | only the last login changes |
| `UserModel.UserDocument.Touch` | models/User.js:64 | saving sets `updatedAt` and nothing else |
| `UserModel.UserDocument.PreSave` | models/User.js:69-79 | a modified password is replaced by its hash, and an unmodified one is left alone |
| `UserModel.UserDocument.MatchPassword` | models/User.js:82-84 | `bcrypt.compare` of the entered password against the document's own password field; for a registered user that field is the stored hash (`RegisterThenLoginChecksHash`) |
| `UserModel.UserDocument.GenerateResetToken` | models/User.js:87-97 | the token is 40 hex digits that decode to the 20 random bytes; the document keeps only the token's digest and an expiry ten minutes on |
| `AuthController.GenerateToken` | controllers/authController.js:5-11 | the token carries the user's id and role and expires seven days after it is issued |
| `AuthController.TokenIssuedThisSecond` | controllers/authController.js:5-11 | the token is issued at the second, in whole seconds, that the request's clock reading falls in |
| `AuthController.SessionFor` | controllers/authController.js:34-43 | the reply's token and user view name the same user and role, and the view carries the user's name and email; a view has no password field |
| `AuthController.FindByEmail` | controllers/authController.js:20 | `findOne({ email })` finds a user with the normalised email, and nothing exactly when no one has it |
| `AuthController.InsertKeepsUsersValid` | models/User.js:15 | inserting a stored-shape user with an untaken email keeps the user invariant, including unique emails |
| `AuthController.RegisterKeepsUsersValid` | controllers/authController.js:20-32 | storing a validated registration whose email is not taken keeps the user invariant |
| `AuthController.SkipIdKeepsUsersValid` | controllers/authController.js:24 | a used-up id keeps the user invariant |
| `AuthController.ResaveKeepsUsersValid` | controllers/authController.js:62-63 | saving a user again with the same name, email and bio keeps the user invariant |
| `AuthController.OnlyHolderFound` | controllers/authController.js:55 | in a valid table, `findOne({ email })` finds the one user with that normalised email |
| `AuthController.RegisteredUserFound` | controllers/authController.js:55 | after registering, any email that normalises to the registered one finds the new user |
| `AuthController.CredentialStore.RegisterUser` | controllers/authController.js:15-47 | registerUser: a taken email is 400 with nothing changed; otherwise the id is used up, and a valid registration is stored with its password hashed (201, token and user view) while an invalid one is 500 |
| `AuthController.RegisterThenLoginChecksHash` | controllers/authController.js:55-59 | after registering with password `pw` under `salt`, the login lookup finds the new record, and its password check accepts an entered password exactly when `compare(entered, hash(pw, salt))` holds |
| `AuthController.CredentialStore.RegisterNew` | controllers/authController.js:24-43 | past the duplicate check, `User.create` validates, hashes and stores the new user, or stores nothing (500) |
| `AuthController.CredentialStore.UseNextId` | controllers/authController.js:24 | the new document takes the next id, and the counter moves on whatever becomes of the document |
| `AuthController.CredentialStore.StoreValidated` | controllers/authController.js:24-32 | a new user that passed the validators is stored under its id with `hash(password, salt)` in place of the password |
| `AuthController.CredentialStore.StoreNew` | models/User.js:69-79 | the validated new document is stored with its password hashed under the salt, keeping the invariant |
| `AuthController.CredentialStore.LoginUser` | controllers/authController.js:51-78 | loginUser: an unknown email is 404, a missing password 500 and a wrong one 401, all with nothing changed; otherwise the user's last login becomes now and the reply is 200 with a token |
| `AuthController.CredentialStore.LoginFound` | controllers/authController.js:58-74 | for the found user: password checks as above, then the record with the new last login and update time replaces the stored one |
| `AuthController.CredentialStore.SaveLogin` | controllers/authController.js:62-63 | the login save changes only the last login and update time, keeps the hash, and keeps the invariant |
| `UploadRoutes.Folder` | routes/uploadRoutes.js:39-114 | each route's Cloudinary folder is a non-empty name without '/' |
| `UploadRoutes.FoldersDistinct` | routes/uploadRoutes.js:39-114 | the four routes upload to four different folders |
| `UploadRoutes.Extname` | routes/uploadRoutes.js:75 | `path.extname` is empty or a '.' followed by no other '.' and no '/' |
| `UploadRoutes.ExtnameOfStem` | routes/uploadRoutes.js:75 | a name made of a non-empty stem and an extension has that extension |
| `UploadRoutes.AllowedVideoOfStem` | routes/uploadRoutes.js:75-77 | such a name is accepted exactly when its lower-cased extension is .mp4, .mov, .avi or .mkv |
| `UploadRoutes.IsAllowedVideo` | routes/uploadRoutes.js:75-77 | every name the check accepts has an extension of four characters |
| `UploadRoutes.LastSegmentInDirectory` | routes/uploadRoutes.js:75 | the last segment of a file directly inside a directory is the file's name |
| `UploadRoutes.DotFileIsNotVideo` | routes/uploadRoutes.js:75-77 | a file whose name is a '.' followed by no other '.' (such as ".mp4"), in any directory, has no extension and is rejected |
| `UploadRoutes.NoDotIsNotVideo` | routes/uploadRoutes.js:75-77 | a file whose name has no '.', in any directory, has no extension and is rejected |
| `UploadRoutes.IntermediatePath` | routes/uploadRoutes.js:17 | the intermediate file's path extends the temp file's path |
| `UploadRoutes.IntermediatePathInjective` | routes/uploadRoutes.js:80 | the intermediate file is never the temp file, and different temp files give different intermediate files |
| `UploadRoutes.UploadWorkspace.Unlink` | routes/uploadRoutes.js:31 | `fs.unlinkSync` removes exactly that file |
| `UploadRoutes.UploadWorkspace.TransformAndUpload` | routes/uploadRoutes.js:17-34 | a failed transform changes nothing; a failed upload leaves the intermediate file on disk; a successful upload records one upload and deletes both files |
| `UploadRoutes.UploadWorkspace.ProcessAndUploadImage` | routes/uploadRoutes.js:16-35 | sharp writes `path.webp`, which is uploaded as a webp image to the folder, and both files are deleted after a successful upload |
| `UploadRoutes.UploadWorkspace.ProcessAndUploadVideo` | routes/uploadRoutes.js:74-104 | a disallowed extension fails before anything runs; otherwise ffmpeg writes `path.mp4`, which is uploaded as an mp4 video, and both files are deleted after a successful upload |
| `UploadRoutes.UploadWorkspace.Handle` | routes/uploadRoutes.js:39-114 | no file is 400 with nothing done; otherwise the route's helper runs with the route's folder, a success is 200 with the URL and any error is 500 with its message |

## Left out

- HTTP, Express routing and the `protect` middleware are not modelled. The authenticated user is an input, `Actor`, and a request without one is not modelled.
- `populate('author' …)` and `populate('categories' …)` are not modelled: they only change the shape of the JSON sent, and a post carries its ids.
- The JWT secret, the signature and the token's encoding are left out. A token is the payload that is signed.
- `slugify`, bcrypt (`genSalt`, `hash`, `compare`), SHA-256, `crypto.randomBytes` and the clock are parameters, not definitions.
- A bcrypt failure during the pre-save hook is left out, as is a database error in a read handler (the 500 replies of `getAllPosts`, `getPostBySlug` and `getAllCategories`).
- Concurrency is left out: each request runs alone. Interleaved requests (two creates of one category name racing between `findOne` and `create`) are not modelled.
- Request fields are modelled only with the types the handlers expect: strings, string arrays, or absent. A number, an object, JSON `null`, or a category string instead of an array is not modelled.
- A register or login request without an email is not modelled: the email is taken to be present.
- The `error: err.message` detail of a 500 reply is not modelled; a reply carries its status, its message and its record.
- The Category schema (models/Category.js) is not part of this model: a category has a name and a creator, and nothing about it is validated.
- The order among posts with equal `createdAt` is left out: MongoDB does not fix it, so the contracts state only that the listing is a sorted permutation.
- The save in loginUser is taken to pass validation: the stored user passed the validators at registration, and its stored hash is longer than six characters.
- sharp's and ffmpeg's options (width 800, quality 80, preset, codec, 720p), multer's storage and Cloudinary's reply beyond `secure_url` are not modelled. A transform or upload is only a success or an error message.
- A transform that fails part-way may leave a partial intermediate file; the model treats a failed transform as writing nothing.
- `generateResetToken` is modelled, but no route of this repository uses it.
- `Text.Lower`: folds only the ASCII letters A-Z. JavaScript's `toLowerCase`, which the email's `lowercase` setter and the video extension check call, maps all of Unicode and can change the length ('İ' becomes two characters). So emails are unique and found only up to ASCII case: with "é@x.fr" stored, the source refuses "É@x.fr" with 400 and the model registers it. And the video check misses extensions that lower-case to an allowed one only through a non-ASCII letter: the source accepts "clip.M\u212AV" (a Kelvin sign) and the model rejects it with 500.
- `Text.LowerChars`: holds of the model's ASCII lower-casing; `toLowerCase` does not always map one character to one character.
- `UploadRoutes.AllowedVideoOfStem`: "in any letter case" means ASCII case; extensions that reach .mp4, .mov, .avi or .mkv only through non-ASCII case folding are rejected by the model and accepted by the source.
- `UserModel.NewUserStored`: records that a stored email is trimmed and non-empty, but not that it is lower case. No handler depends on it: lookups normalise the filter the same way.
