# Book-app backend core, modelled in Dafny

This project models the request handlers of a small book-recommendation
service and the two document schemas behind them.

- **Book router** (`backend/src/routes/bookRoutes.js`):
  - creating a post, with rating coercion, image upload and schema validation;
  - the public feed, paginated by `page` and `limit` and newest first;
  - the caller's own posts;
  - deleting a post. Only the owner may delete, and the stored image is
    removed on a best-effort basis, under a key cut out of its URL.
- **Auth router** (`backend/src/routes/authRoutes.js`):
  - registration, with its ordered input checks, the duplicate-email and
    duplicate-username lookups, the generated avatar and the token;
  - the login placeholder.
- **Schemas** (`backend/src/models/Book.js` and `backend/src/models/User.js`):
  - the required paths, and the rating bounds;
  - the user's profile-image default;
  - the pre-save hook that hashes a modified password.

Each handler is a pure function. It takes the request, the collections
(`map<ObjectId, Book>`, `map<ObjectId, User>`) and the outcome of every
external call it makes, and returns the response together with the
collections afterwards. The external calls are the database queries, the
image upload and destroy, the insert, and the token signing.

- **Hashing.** bcrypt with a fresh salt is a function parameter `hash`.
- **Sort order.** The order the database sorts posts in is a parameter
  `order`. It is constrained to list every post once, newest first. Ties
  are broken however the store likes, and a lemma shows such an order
  always exists.

The JavaScript the handlers rely on is modelled explicitly (`js.dfy`,
`js_string.dfy`):

- truthiness;
- `parseInt(s, 10)`, and `parseInt(s)` without a radix, which also reads
  a `0x` prefix as hexadecimal;
- `Number(v)` on non-strings;
- `String(v)` of scalars, which is also how Mongoose casts into a String path;
- the UTF-16 `.length` of strings, and the `undefined` length of other values;
- `split`, `join` and `includes`.

Modules, following the program's structure:

| file | module | models |
|---|---|---|
| `option.dfy` | `Opt` | optional values |
| `js.dfy` | `Js` | JavaScript values, `parseInt`, `String(n)`, `.length` |
| `js_string.dfy` | `JsString` | `split`, `join`, `includes` |
| `http.dfy` | `Http` | ids, responses, external call outcomes, `error.message \|\| fallback` |
| `book_model.dfy` | `BookModel` | the Book schema and its validation |
| `user_model.dfy` | `UserModel` | the User schema, its validation and the pre-save hash |
| `ordering.dfy` | `Ordering` | the newest-first listing the feed and the owner listing read |
| `paging.dfy` | `Paging` | query parameters, skip/limit windows, `totalPages` |
| `book_routes.dfy` | `BookRoutes` | the four book handlers |
| `auth_routes.dfy` | `AuthRoutes` | register, the token, login |

Behaviours of the code worth knowing:

- **Login.** It answers the text `login` to every request and checks no
  credentials.
- **Negative page or limit.** A negative `page` or `limit` is not replaced by
  the default. A non-zero integer is kept, so `?page=-1` gives a negative
  skip, which the database refuses. The model answers 500 there rather than
  falling back.
- **Hexadecimal parameters.** The feed's parameters are read without a
  radix, so `?page=0x10` means page 16.
- **Ownership.** An ownership mismatch on delete answers 401.
- **Two caller properties.** Create and delete read the caller from
  `req.user_id`, while the owner listing reads `req.user._id`. The model
  keeps the two apart (`AuthContext`) instead of assuming they agree.
- **Length checks.** The registration length checks use `.length`. A
  numeric username has none, so it escapes the three-character minimum
  (`NumericUsernameSkipsLengthCheck`). A numeric password escapes the
  handler's check too, but not the schema's `minlength`, which sees its
  decimal text (`NumericShortPasswordFailsValidation`).
- **Failed signing.** When `jwt.sign` throws, the user has already been
  inserted, so the client gets a 500 for an account that exists
  (`SigningFailureKeepsUser`).

## Model

| member | source | states |
|---|---|---|
| Js.ParseIntReads | backend/src/routes/bookRoutes.js:24-25 | `parseInt(s, 10)` skips leading whitespace, takes an optional sign and the longest run of digits, and ignores whatever follows ("3abc" is 3) |
| Js.ParseIntNaN | backend/src/routes/bookRoutes.js:24-27 | without a digit after the optional sign, `parseInt` yields NaN, which the range check then refuses |
| Js.ParseIntOfDecimal | backend/src/routes/bookRoutes.js:24-25 | `parseInt(String(n), 10) == n` for every integer: the decimal spelling and the parser are inverse |
| Js.ParseIntAutoOfDecimal | backend/src/routes/bookRoutes.js:62-63 | `parseInt(String(n))` without a radix also returns `n`: a decimal spelling never looks hexadecimal |
| Js.ParseIntAutoHex | backend/src/routes/bookRoutes.js:62-63 | without a radix, `parseInt("0x10")` is 16 |
| Js.CastToString | backend/src/models/Book.js:5-12 | a String path accepts exactly strings, numbers and booleans, and keeps a string unchanged |
| Js.ShorterThanBounds | backend/src/routes/authRoutes.js:27-37 | a string of at least `n` characters always passes a `.length < n` check, and one of fewer than `n / 2` characters always fails it |
| Js.Utf16LengthBounds | backend/src/routes/authRoutes.js:27-37 | `.length` counts UTF-16 code units: between the number of characters and twice that |
| JsString.Split | backend/src/routes/bookRoutes.js:117 | `split` yields at least one piece, no piece contains the separator, and joining the pieces with it gives back the string |
| JsString.JoinInjective | backend/src/routes/bookRoutes.js:117 | two separator-free piece lists with the same join are equal, so the split is the only such decomposition |
| JsString.SplitUnique | backend/src/routes/bookRoutes.js:117 | any separator-free decomposition that joins back to `s` is `s.split(sep)` |
| JsString.Includes | backend/src/routes/bookRoutes.js:115 | `includes` holds exactly when the text occurs at some position |
| Http.ErrorText | backend/src/routes/bookRoutes.js:51 | the reported message is the error's own when it has one, the fallback otherwise, and never empty |
| BookModel.ValidateBook | backend/src/models/Book.js:3-31 | a post is written exactly when title, caption and image are non-empty strings, the rating lies in [1, 5] and an owner is set; it then carries those values, the given id and equal timestamps |
| UserModel.NewUser | backend/src/models/User.js:21-24 | a profile image that is not supplied defaults to the empty string; the other paths are taken as given |
| UserModel.PreSave | backend/src/models/User.js:32-40 | a modified password is replaced by its hash; nothing else changes, and an unmodified document is left alone |
| UserModel.SaveNewUser | backend/src/models/User.js:4-40 | a new user is saved exactly when username and email are non-empty and the password is at least 6 code units; the stored password is the hash of the given one |
| UserModel.PreSaveHashesOnce | backend/src/models/User.js:34 | saving again without touching the password keeps the stored hash rather than hashing it twice |
| Ordering.NewestFirstExists | backend/src/routes/bookRoutes.js:66-67 | every set of posts has a listing that holds each post once, newest first |
| Ordering.ListingCountsStore | backend/src/routes/bookRoutes.js:66-72 | the sorted listing has as many entries as `countDocuments` reports |
| Paging.PaginationDefaults | backend/src/routes/bookRoutes.js:62-63 | a missing, non-numeric or zero parameter falls back to page 1 and limit 5; any other integer is kept; neither can end up 0 |
| Paging.PaginationReadsDecimal | backend/src/routes/bookRoutes.js:62-63 | a parameter spelled as a non-zero integer is taken at its value |
| Paging.PaginationReadsHex | backend/src/routes/bookRoutes.js:62 | `?page=0x10` asks for page 16 |
| Paging.Window | backend/src/routes/bookRoutes.js:68-69 | skip/limit returns at most `limit` consecutive entries, starting at `skip` and cut at the end of the listing |
| Paging.TotalPages | backend/src/routes/bookRoutes.js:78 | `ceil(total / limit)` for a positive limit: enough pages for every post, and no page that is wholly empty |
| Paging.PagesDisjoint | backend/src/routes/bookRoutes.js:64-69 | two different pages of a listing without repeats share no entry |
| Paging.FirstPagesArePrefix | backend/src/routes/bookRoutes.js:64-69 | pages 1 to n read one after another are the first `n * limit` entries |
| Paging.PagesCoverListing | backend/src/routes/bookRoutes.js:64-78 | pages 1 to `totalPages` read one after another are the whole listing, in order |
| BookRoutes.CoerceRating | backend/src/routes/bookRoutes.js:24-25 | a string rating is read by `parseInt(_, 10)`; a number is kept; `true`/`false` give 1/0, `null` gives 0; `undefined` and every object, arrays included, give NaN |
| BookRoutes.CreateRejection | backend/src/routes/bookRoutes.js:12-31 | the 400 messages in the handler's order: body missing, then a falsy field, then a rating that is NaN or outside [1, 5] |
| BookRoutes.CreateBook | backend/src/routes/bookRoutes.js:10-55 | the create handler answers 201, 400 or 500; it answers 400 exactly when validation fails, and then uploads nothing; the collection changes only on 201, by inserting the new post under a fresh id |
| BookRoutes.CreateBookSuccess | backend/src/routes/bookRoutes.js:33-48 | a post is created exactly when validation passes, the upload returns a URL, the caller is known, title and caption cast to strings and the insert goes through; the post then holds the caller, the uploaded URL and the coerced rating |
| BookRoutes.CreateBookKeepsStoreWellFormed | backend/src/routes/bookRoutes.js:38-46 | creating a post keeps every stored post valid and filed under its own id |
| BookRoutes.RatingReadsLeadingDigits | backend/src/routes/bookRoutes.js:23-25 | the string "3" and the string "3abc" both coerce to 3, and `true` to 1 |
| BookRoutes.RatingTextNotANumber | backend/src/routes/bookRoutes.js:24-25 | the string "abc" coerces to NaN |
| BookRoutes.RatingTextZero | backend/src/routes/bookRoutes.js:24-25 | the string "0" coerces to 0 |
| BookRoutes.RatingTextAccepted | backend/src/routes/bookRoutes.js:18-31 | with the other fields present, the rating "3" passes every check |
| BookRoutes.RatingNotANumberRejected | backend/src/routes/bookRoutes.js:27-31 | the rating "abc" is refused as not a number between 1 and 5 |
| BookRoutes.RatingTextZeroRejected | backend/src/routes/bookRoutes.js:19-31 | the string "0" is truthy, so it passes the presence check and is refused by the range check |
| BookRoutes.RatingSixRejected | backend/src/routes/bookRoutes.js:27-31 | the number 6 is refused as out of range |
| BookRoutes.ZeroRatingIsMissing | backend/src/routes/bookRoutes.js:19-21 | the number 0 is falsy, so it is reported as a missing field |
| BookRoutes.RejectedOnRating | backend/src/routes/bookRoutes.js:27-31 | once all fields are present, the coerced rating alone decides acceptance |
| BookRoutes.Populate | backend/src/routes/bookRoutes.js:70 | each post of a page is joined with its owner's id, username and profile image, or with nothing when the owner no longer exists |
| BookRoutes.Feed | backend/src/routes/bookRoutes.js:60-85 | the feed answers 200 exactly when the queries go through and the skip is not negative; it echoes the page, counts every post and returns at most the absolute limit of posts |
| BookRoutes.FeedShowsPage | backend/src/routes/bookRoutes.js:60-79 | for positive page and limit, the posts shown are page `page` of the newest-first listing, `totalBooks` is the number of posts, and `totalPages` is `ceil(totalBooks / limit)` |
| BookRoutes.FeedScrollsThroughAll | backend/src/routes/bookRoutes.js:57-78 | with a fixed listing, pages 1 to `totalPages` show every post once, newest first, and two different pages never share a post |
| BookRoutes.OwnedBy | backend/src/routes/bookRoutes.js:90 | the owner filter keeps exactly the listed posts of that owner |
| BookRoutes.OwnedByKeepsOrder | backend/src/routes/bookRoutes.js:90-92 | filtering keeps the listing free of repeats and newest first |
| BookRoutes.UserBooks | backend/src/routes/bookRoutes.js:88-98 | the owner listing answers 200 exactly when `req.user` is set and the query goes through, with exactly the caller's posts; otherwise it answers 500 |
| BookRoutes.UserBooksNewestFirst | backend/src/routes/bookRoutes.js:90-93 | the caller's posts are listed each once, newest first |
| BookRoutes.PublicId | backend/src/routes/bookRoutes.js:117 | the image-store key contains no slash and no dot |
| BookRoutes.PublicIdLocation | backend/src/routes/bookRoutes.js:117 | the key starts the URL's last path segment and runs up to that segment's first dot or to its end |
| BookRoutes.PublicIdOfPath | backend/src/routes/bookRoutes.js:117 | for `dir/stem.ext` with a dot-free stem, the key is the stem |
| BookRoutes.SampleUrlPublicId | backend/src/routes/bookRoutes.js:114-117 | the sample URL in the handler's comment yields the key `qhuruuejhe` |
| BookRoutes.CloudinaryUrlRecognised | backend/src/routes/bookRoutes.js:115 | any URL that contains "cloudinary" is sent for image cleanup, under its key |
| BookRoutes.CleanupTarget | backend/src/routes/bookRoutes.js:115-118 | `destroy` is called exactly for a non-empty image URL that contains "cloudinary", with that URL's key |
| BookRoutes.DeleteBook | backend/src/routes/bookRoutes.js:101-131 | delete answers 404 exactly for a missing post, 401 exactly when the caller is not its owner, and 200 exactly when the owner's delete goes through; only a 200 changes the collection, by removing that post; cleanup is requested only for the owner |
| BookRoutes.DeleteByOwner | backend/src/routes/bookRoutes.js:113-126 | the owner's delete removes only that post, whatever the image store answers, and asks for image cleanup exactly when the URL mentions "cloudinary" |
| BookRoutes.DeleteKeepsStoreWellFormed | backend/src/routes/bookRoutes.js:124 | deleting keeps every remaining post valid and filed under its own id |
| AuthRoutes.GenerateToken | backend/src/routes/authRoutes.js:8-11 | the token's payload is the user id it was made for, and it lasts fifteen days |
| AuthRoutes.AvatarUrlInjective | backend/src/routes/authRoutes.js:56 | different usernames get different avatar URLs |
| AuthRoutes.RegisterRejection | backend/src/routes/authRoutes.js:17-37 | the input checks in the handler's order: body missing, then a falsy field, then a short password, then a short username, each message exactly when the earlier checks pass |
| AuthRoutes.Register | backend/src/routes/authRoutes.js:13-77 | register answers 201, 400 or 500; every 400 leaves the users unchanged; the only change ever made is inserting one user under a fresh id after a successful save; a 201 carries the token for that id and the stored user's summary |
| AuthRoutes.RegisterSuccess | backend/src/routes/authRoutes.js:45-74 | registration succeeds exactly when the checks pass, neither email nor username is taken, the stored password text is long enough, the id is fresh and the insert and signing go through; the user then holds the hashed password and the generated avatar, and the token carries its id |
| AuthRoutes.RegisterKeepsUsersUnique | backend/src/routes/authRoutes.js:45-61 | registration never leaves two users sharing a username or an email |
| AuthRoutes.RegisterKeepsUsersWellFormed | backend/src/routes/authRoutes.js:58-61 | registration keeps every user filed under its own id with a non-empty username and email |
| AuthRoutes.PasswordCheckedBeforeUsername | backend/src/routes/authRoutes.js:27-37 | when both password and username are too short, the password is reported |
| AuthRoutes.EmailReportedBeforeUsername | backend/src/routes/authRoutes.js:45-53 | when the email is taken, that is reported whether or not the username is taken too |
| AuthRoutes.UsernameTakenRejected | backend/src/routes/authRoutes.js:45-53 | with a free email and a taken username the answer is 400 "Username already exists" and the users are unchanged |
| AuthRoutes.SigningFailureKeepsUser | backend/src/routes/authRoutes.js:61-64 | a failure to sign the token comes after the insert: the user is stored although the answer is 500 |
| AuthRoutes.NumericUsernameSkipsLengthCheck | backend/src/routes/authRoutes.js:33-37 | the number 12 has no `.length`, so it is registered as the two-character username "12" |
| AuthRoutes.NumericShortPasswordFailsValidation | backend/src/routes/authRoutes.js:27-31 | the number 12 passes the handler's password check, fails the schema's minimum length, and the answer is 500 with nothing stored |
| AuthRoutes.Login | backend/src/routes/authRoutes.js:80-82 | login answers 200 with plain text |
| AuthRoutes.LoginIgnoresCredentials | backend/src/routes/authRoutes.js:80-82 | login answers the same whatever the request and the stored users |

## Left out

- **Numbers.** Only integers and NaN are modelled, so fractional ratings
  such as `2.5` are not. Neither are the infinities, `-0`, or the
  exponent notation `String(n)` uses from 1e21 upwards. Integers are
  exact at every size, whereas the code rounds those above 2^53 to the
  nearest double.
- BookRoutes.CoerceRating: treats every object as NaN, so an array
  rating is answered 400. The code computes `Number(rating)`, which for a
  one-element numeric array such as `[3]` is 3, so that request is
  accepted and stored with rating 3; `[]` gives 0 and is refused.
- **Non-scalar bodies.** Arrays and objects in a JSON body are one opaque
  `Object` value, so their `.length` is not modelled. The model treats
  every object as failing Mongoose's string cast, which answers 500.
  Mongoose instead casts an object whose `_id` is a string to that
  string, and a lookup accepts query-operator objects such as
  `{ "$ne": null }`.
- **Malformed ids.** The CastError for a malformed `:id` or user id is not
  modelled. Ids are opaque values compared for equality.
- **Authentication middleware.** The middleware that sets `req.user` and
  `req.user_id` is not part of this model. Its result is the `AuthContext`
  parameter, and a property it may leave unset answers 500.
- **Server wiring.** Express routing, the JSON body parser, the server
  start-up and the mobile client are not modelled.
- **Token details.** The JWT secret, the signature and the token encoding
  are not modelled. A token is its payload and lifetime, and signing is an
  outcome parameter.
- **Password hashing.** bcrypt and salt generation are the `hash`
  parameter. `comparePassword` (User.js:43-45) is never called by the
  handlers and is not modelled.
- **Unique indexes.** The unique indexes on username and email are not
  enforced by the modelled insert. Uniqueness is proved from the handler's
  own lookups (`RegisterKeepsUsersUnique`). This holds for one request at
  a time; concurrent requests are not modelled.
- **Error details.** Mongoose's exact validation-error texts are not
  modelled, and neither is the development-only `error.stack` in a 500
  body. The create handler's 500 message is `error.message ||` the
  fallback, with the message as a parameter.
- **Logging.** Console logging is not modelled, including the log line for
  a failed image destroy. The failed destroy itself is modelled: it does
  not change the answer.
- **Timestamps.** `updatedAt` is set at creation and never advanced,
  because no handler in this core updates a document.
- BookRoutes.FeedShowsPage: states `totalPages` as `TotalPages(total, limit)`; the ceiling bounds are stated on `Paging.TotalPages` itself rather than repeated here.
