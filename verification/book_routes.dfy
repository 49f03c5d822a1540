/**
 * The book router (backend/src/routes/bookRoutes.js): create a post,
 * the public paginated feed, the caller's own posts, and ownership-checked
 * deletion with best-effort removal of the stored image.
 *
 * Each handler is a function of the request, the stores and the outcomes
 * of the external calls it makes (upload, queries, destroy), returning the
 * response and, where it writes, the new books collection.
 */
module BookRoutes {
  import opened Opt
  import opened Js
  import opened JsString
  import opened Http
  import opened BookModel
  import opened UserModel
  import opened Ordering
  import opened Paging

  /**
   * What the authentication middleware leaves on the request. The handlers
   * read the caller through two different properties: `req.user_id` when
   * creating and deleting, `req.user._id` when listing the caller's own
   * posts. `None` stands for a property that is not set.
   */
  datatype AuthContext = AuthContext(userDocId: Option<ObjectId>, userIdProp: Option<ObjectId>)

  /** The fields of a create request's JSON body. */
  datatype CreateBody = CreateBody(title: Value, caption: Value, rating: Value, image: Value)

  /** The answer of the image store to `cloudinary.uploader.upload(image)`. */
  datatype Upload = Uploaded(secureUrl: string) | UploadFailed(message: string)

  /** The owner fields the feed joins into each post: `populate("user", "username profileImage")`. */
  datatype OwnerSummary = OwnerSummary(id: ObjectId, username: string, profileImage: string)

  /** A feed entry: the post and its owner, `None` when the owner no longer exists. */
  datatype FeedEntry = FeedEntry(book: Book, owner: Option<OwnerSummary>)

  /** The JSON bodies this router sends. */
  datatype BookReply =
    | Message(message: string)
    | CreatedBook(book: Book)
    | FeedPage(books: seq<FeedEntry>, currentPage: int, totalBooks: nat, totalPages: int)
    | BookList(list: seq<Book>)

  /** The create handler's response, the books collection afterwards, and whether the image was sent for upload. */
  datatype CreateOutcome = CreateOutcome(response: Response<BookReply>, books: BookStore, uploadAttempted: bool)

  /** The delete handler's response, the books collection afterwards, and the public id passed to `destroy`, if any. */
  datatype DeleteOutcome = DeleteOutcome(response: Response<BookReply>, books: BookStore, destroyRequest: Option<string>)

  const MissingBody := "The request body is missing or empty."
  const MissingFields := "Please provide all fields"
  const BadRating := "Rating must be a number between 1 and 5"
  const InternalError := "Internal server error"
  const BookValidationFailed := "Book validation failed"
  const DuplicateKey := "E11000 duplicate key error"
  const BookNotFound := "Book not found"
  const NotOwner := "Unauthorized"
  const BookDeleted := "Book deleted successfully"
  const CloudinaryMarker := "cloudinary"

  // ---------------------------------------------------------------------
  // POST /  (create)

  /** `title && caption && rating && image`. */
  predicate AllFieldsPresent(b: CreateBody) {
    Truthy(b.title) && Truthy(b.caption) && Truthy(b.rating) && Truthy(b.image)
  }

  /**
   * `typeof rating === "string" ? parseInt(rating, 10) : Number(rating)`.
   * Every object counts as NaN here, arrays included.
   */
  function CoerceRating(v: Value): (r: Num)
    ensures v.String? ==> r == ParseInt(v.s)
    ensures v.Number? ==> r == v.n
    ensures v.Boolean? ==> r == Int(if v.b then 1 else 0)
    ensures v.Null? ==> r == Int(0)
    ensures v.Undefined? || v.Object? ==> r == NaN
  {
    match v
    case String(s) => ParseInt(s)
    case Number(n) => n
    case Boolean(b) => Int(if b then 1 else 0)
    case Null => Int(0)
    case Undefined => NaN
    case Object => NaN
  }

  /** `!(isNaN(r) || r < 1 || r > 5)`. */
  predicate RatingInRange(n: Num) {
    n.Int? && 1 <= n.value <= 5
  }

  /**
   * The message a create request is turned away with before anything is
   * uploaded, checking in order: a body, all four fields truthy, a rating
   * that coerces into [1, 5].
   */
  function CreateRejection(body: Option<CreateBody>): (r: Option<string>)
    ensures r.None? <==> body.Some? && AllFieldsPresent(body.value) && RatingInRange(CoerceRating(body.value.rating))
    ensures r.None? ==> 1 <= CoerceRating(body.value.rating).value <= 5
    ensures r == Some(MissingBody) <==> body.None?
    ensures r == Some(MissingFields) <==> body.Some? && !AllFieldsPresent(body.value)
    ensures r == Some(BadRating) ==> body.Some? && AllFieldsPresent(body.value)
  {
    if body.None? then Some(MissingBody)
    else if !AllFieldsPresent(body.value) then Some(MissingFields)
    else if !RatingInRange(CoerceRating(body.value.rating)) then Some(BadRating)
    else None
  }

  /** The document the handler builds from an accepted request and the uploaded image's URL. */
  function CreateDraft(fields: CreateBody, url: string, ctx: AuthContext): BookDraft
    requires RatingInRange(CoerceRating(fields.rating))
  {
    BookDraft(CastToString(fields.title), CastToString(fields.caption), Some(url),
              Some(CoerceRating(fields.rating).value), ctx.userIdProp)
  }

  /**
   * POST /api/books. `upload` is the image store's answer, `newId` and `now`
   * the id and timestamp the database assigns, `save` whether the insert
   * goes through.
   */
  function CreateBook(body: Option<CreateBody>, ctx: AuthContext, books: BookStore, upload: Upload,
                      newId: ObjectId, now: int, save: ServiceCall): (r: CreateOutcome)
    ensures r.response.status == 201 || r.response.status == 400 || r.response.status == 500
    ensures r.response.status == 400 <==> CreateRejection(body).Some?
    ensures r.uploadAttempted <==> CreateRejection(body).None?
    ensures r.response.status != 201 ==> r.books == books
    ensures r.response.status == 201 ==>
      && r.response.body.CreatedBook?
      && newId !in books
      && r.books == books[newId := r.response.body.book]
  {
    var rejection := CreateRejection(body);
    if rejection.Some? then
      CreateOutcome(Response(400, Message(rejection.value)), books, false)
    else
      match upload
      case UploadFailed(message) =>
        CreateOutcome(Response(500, Message(ErrorText(message, InternalError))), books, true)
      case Uploaded(url) =>
        match ValidateBook(CreateDraft(body.value, url, ctx), newId, now)
        case None =>
          CreateOutcome(Response(500, Message(BookValidationFailed)), books, true)
        case Some(book) =>
          if newId in books then
            CreateOutcome(Response(500, Message(DuplicateKey)), books, true)
          else if save.Fails? then
            CreateOutcome(Response(500, Message(ErrorText(save.message, InternalError))), books, true)
          else
            CreateOutcome(Response(201, CreatedBook(book)), books[newId := book], true)
  }

  /**
   * A create request succeeds exactly when validation passes, the upload
   * returns a URL, the caller's `user_id` is set, title and caption are
   * strings, numbers or booleans, and the insert goes through; the new post
   * then carries the caller as owner, the uploaded URL as image and the
   * coerced rating, and it is the only change to the collection.
   */
  lemma CreateBookSuccess(body: Option<CreateBody>, ctx: AuthContext, books: BookStore, upload: Upload,
                          newId: ObjectId, now: int, save: ServiceCall)
    ensures var r := CreateBook(body, ctx, books, upload, newId, now, save);
      r.response.status == 201 <==>
        && CreateRejection(body).None?
        && upload.Uploaded? && upload.secureUrl != ""
        && ctx.userIdProp.Some?
        && CastToString(body.value.title).Some?
        && CastToString(body.value.caption).Some?
        && newId !in books
        && save.Succeeds?
    ensures var r := CreateBook(body, ctx, books, upload, newId, now, save);
      r.response.status == 201 ==>
        var b := r.response.body.book;
        && b.id == newId
        && b.user == ctx.userIdProp.value
        && b.image == upload.secureUrl
        && b.rating == CoerceRating(body.value.rating).value
        && 1 <= b.rating <= 5
        && b.title == CastToString(body.value.title).value
        && b.caption == CastToString(body.value.caption).value
        && b.createdAt == now
        && |r.books| == |books| + 1
  {
    var r := CreateBook(body, ctx, books, upload, newId, now, save);
    if r.response.status == 201 {
      var b := r.response.body.book;
      assert b == ValidateBook(CreateDraft(body.value, upload.secureUrl, ctx), newId, now).value;
    }
  }

  /** Creating a post keeps every stored post valid and filed under its own id. */
  lemma CreateBookKeepsStoreWellFormed(body: Option<CreateBody>, ctx: AuthContext, books: BookStore,
                                       upload: Upload, newId: ObjectId, now: int, save: ServiceCall)
    requires WellFormedBooks(books)
    ensures WellFormedBooks(CreateBook(body, ctx, books, upload, newId, now, save).books)
  {
    var r := CreateBook(body, ctx, books, upload, newId, now, save);
    if r.response.status == 201 {
      CreateBookSuccess(body, ctx, books, upload, newId, now, save);
      var b := r.response.body.book;
      assert b == ValidateBook(CreateDraft(body.value, upload.secureUrl, ctx), newId, now).value;
    }
  }

  /** `"3"` and `"3abc"` both read as 3, and `true` counts as 1. */
  lemma RatingReadsLeadingDigits()
    ensures CoerceRating(String("3")) == Int(3)
    ensures CoerceRating(String("3abc")) == Int(3)
    ensures CoerceRating(Boolean(true)) == Int(1)
  {
    ParseIntReads("", "", "3", "");
    assert "" + "" + "3" + "" == "3";
    ParseIntReads("", "", "3", "abc");
    assert "" + "" + "3" + "abc" == "3abc";
  }

  /** `"abc"` has no leading digit and reads as NaN. */
  lemma RatingTextNotANumber()
    ensures CoerceRating(String("abc")) == NaN
  {
    ParseIntNaN("", "", "abc");
    assert "" + "" + "abc" == "abc";
  }

  /** `"0"` reads as 0. */
  lemma RatingTextZero()
    ensures CoerceRating(String("0")) == Int(0)
  {
    ParseIntReads("", "", "0", "");
    assert "" + "" + "0" + "" == "0";
  }

  /** With the other fields present, the string "3" is accepted. */
  lemma RatingTextAccepted(title: Value, caption: Value, image: Value)
    requires Truthy(title) && Truthy(caption) && Truthy(image)
    ensures CreateRejection(Some(CreateBody(title, caption, String("3"), image))).None?
  {
    RatingReadsLeadingDigits();
    RejectedOnRating(CreateBody(title, caption, String("3"), image), Int(3));
  }

  /** With the other fields present, the string "abc" is refused: it reads as NaN. */
  lemma RatingNotANumberRejected(title: Value, caption: Value, image: Value)
    requires Truthy(title) && Truthy(caption) && Truthy(image)
    ensures CreateRejection(Some(CreateBody(title, caption, String("abc"), image))) == Some(BadRating)
  {
    RatingTextNotANumber();
    RejectedOnRating(CreateBody(title, caption, String("abc"), image), NaN);
  }

  /** With the other fields present, the string "0" is truthy, reads as 0 and is refused as out of range. */
  lemma RatingTextZeroRejected(title: Value, caption: Value, image: Value)
    requires Truthy(title) && Truthy(caption) && Truthy(image)
    ensures CreateRejection(Some(CreateBody(title, caption, String("0"), image))) == Some(BadRating)
  {
    RatingTextZero();
    RejectedOnRating(CreateBody(title, caption, String("0"), image), Int(0));
  }

  /** With the other fields present, the number 6 is refused as out of range. */
  lemma RatingSixRejected(title: Value, caption: Value, image: Value)
    requires Truthy(title) && Truthy(caption) && Truthy(image)
    ensures CreateRejection(Some(CreateBody(title, caption, Number(Int(6)), image))) == Some(BadRating)
  {
    RejectedOnRating(CreateBody(title, caption, Number(Int(6)), image), Int(6));
  }

  /** A numeric rating of 0 is falsy, so it is reported as a missing field rather than out of range. */
  lemma ZeroRatingIsMissing(title: Value, caption: Value, image: Value)
    requires Truthy(title) && Truthy(caption) && Truthy(image)
    ensures CreateRejection(Some(CreateBody(title, caption, Number(Int(0)), image))) == Some(MissingFields)
  {
  }

  /** Once all fields are present, the rating alone decides. */
  lemma RejectedOnRating(fields: CreateBody, rating: Num)
    requires AllFieldsPresent(fields)
    requires CoerceRating(fields.rating) == rating
    ensures CreateRejection(Some(fields)) == if RatingInRange(rating) then None else Some(BadRating)
  {
  }

  // ---------------------------------------------------------------------
  // GET /  (public feed)

  function Abs(n: int): nat {
    if n < 0 then -n else n
  }

  /** The owner of a post as the feed shows it, `None` when no such user exists. */
  function OwnerOf(b: Book, users: UserStore): (o: Option<OwnerSummary>)
    ensures o.Some? <==> b.user in users
    ensures o.Some? ==>
      && o.value.id == b.user
      && o.value.username == users[b.user].username
      && o.value.profileImage == users[b.user].profileImage
  {
    if b.user in users then
      Some(OwnerSummary(b.user, users[b.user].username, users[b.user].profileImage))
    else None
  }

  /** Join each post of a page with its owner's username and profile image. */
  function Populate(page: seq<Book>, users: UserStore): (entries: seq<FeedEntry>)
    ensures |entries| == |page|
    ensures forall i :: 0 <= i < |page| ==> entries[i].book == page[i]
    ensures forall i :: 0 <= i < |page| ==> entries[i].owner == OwnerOf(page[i], users)
  {
    seq(|page|, i requires 0 <= i < |page| => FeedEntry(page[i], OwnerOf(page[i], users)))
  }

  /** The posts of a feed page, without their owners. */
  function PostsOf(entries: seq<FeedEntry>): (posts: seq<Book>)
    ensures |posts| == |entries|
    ensures forall i :: 0 <= i < |entries| ==> posts[i] == entries[i].book
  {
    seq(|entries|, i requires 0 <= i < |entries| => entries[i].book)
  }

  /**
   * GET /api/books?page=&limit=. `order` is the store's newest-first listing
   * of all posts and `query` whether the queries go through. A negative
   * skip is refused by the database; a negative limit returns that many
   * posts counted positively.
   */
  function Feed(page: QueryParam, limit: QueryParam, books: BookStore, users: UserStore,
                order: seq<Book>, query: ServiceCall): (r: Response<BookReply>)
    requires IsNewestFirst(books.Values, order)
    ensures r.status == 200 || r.status == 500
    ensures r.status == 200 <==> query.Succeeds? && Skip(PageNumber(page), PageLimit(limit)) >= 0
    ensures r.status == 200 ==>
      && r.body.FeedPage?
      && r.body.currentPage == PageNumber(page)
      && r.body.totalBooks == |books|
      && |r.body.books| <= Abs(PageLimit(limit))
  {
    var p := PageNumber(page);
    var l := PageLimit(limit);
    var skip := Skip(p, l);
    if query.Fails? || skip < 0 then
      Response(500, Message(InternalError))
    else
      PaginationDefaults(limit);
      var entries := Populate(Window(order, skip, Abs(l)), users);
      Response(200, FeedPage(entries, p, |books|, TotalPages(|books|, l)))
  }

  /**
   * For page >= 1 and limit >= 1 the feed shows the slice
   * `[(page-1)*limit, page*limit)` of the newest-first listing, echoes the
   * page, counts every post, and reports `ceil(total / limit)` pages.
   */
  lemma FeedShowsPage(page: QueryParam, limit: QueryParam, books: BookStore, users: UserStore, order: seq<Book>)
    requires WellFormedBooks(books)
    requires IsNewestFirst(books.Values, order)
    requires PageNumber(page) >= 1 && PageLimit(limit) >= 1
    ensures var r := Feed(page, limit, books, users, order, Succeeds);
      var p := PageNumber(page);
      var l := PageLimit(limit);
      && r.status == 200
      && PostsOf(r.body.books) == PageOf(order, p, l)
      && |r.body.books| <= l
      && r.body.currentPage == p
      && r.body.totalBooks == |order|
      && r.body.totalPages == TotalPages(|order|, l)
  {
    ListingCountsStore(books, order);
    var p := PageNumber(page);
    var l := PageLimit(limit);
    FeedIsPage(page, limit, books, users, order);
    PostsOfPopulate(PageOf(order, p, l), users);
  }

  /** For positive page and limit, the feed answers with page `page` of the listing. */
  lemma FeedIsPage(page: QueryParam, limit: QueryParam, books: BookStore, users: UserStore, order: seq<Book>)
    requires IsNewestFirst(books.Values, order)
    requires PageNumber(page) >= 1 && PageLimit(limit) >= 1
    ensures var p := PageNumber(page);
      var l := PageLimit(limit);
      Feed(page, limit, books, users, order, Succeeds)
        == Response(200, FeedPage(Populate(PageOf(order, p, l), users), p, |books|, TotalPages(|books|, l)))
  {
    SkipNonNegative(PageNumber(page), PageLimit(limit));
  }

  lemma SkipNonNegative(page: int, limit: int)
    requires page >= 1 && limit >= 1
    ensures Skip(page, limit) >= 0
  {
    assert (page - 1) * limit >= 0;
  }

  lemma PostsOfPopulate(page: seq<Book>, users: UserStore)
    ensures PostsOf(Populate(page, users)) == page
  {
  }

  /**
   * Infinite scroll: with a fixed listing, the posts of pages 1 to
   * `totalPages` read one after another are every post, newest first, each
   * once; and two different pages never show the same post.
   */
  lemma FeedScrollsThroughAll(limit: int, books: BookStore, order: seq<Book>)
    requires WellFormedBooks(books)
    requires IsNewestFirst(books.Values, order)
    requires limit >= 1
    ensures FirstPages(order, limit, TotalPages(|books|, limit)) == order
    ensures forall p1, p2 :: 1 <= p1 && 1 <= p2 && p1 != p2 ==>
      forall b :: b in PageOf(order, p1, limit) ==> b !in PageOf(order, p2, limit)
  {
    ListingCountsStore(books, order);
    PagesCoverListing(order, limit);
    forall p1, p2 | 1 <= p1 && 1 <= p2 && p1 != p2
      ensures forall b :: b in PageOf(order, p1, limit) ==> b !in PageOf(order, p2, limit)
    {
      PagesDisjoint(order, p1, p2, limit);
    }
  }

  // ---------------------------------------------------------------------
  // GET /user  (the caller's posts)

  /** The posts of `order` owned by `owner`, in the same order. */
  function OwnedBy(order: seq<Book>, owner: ObjectId): (r: seq<Book>)
    ensures |r| <= |order|
    ensures forall b :: b in r <==> b in order && b.user == owner
  {
    if order == [] then []
    else
      var rest := OwnedBy(order[1..], owner);
      assert forall b :: b in order <==> b == order[0] || b in order[1..] by {
        assert order == [order[0]] + order[1..];
      }
      if order[0].user == owner then [order[0]] + rest else rest
  }

  /** Filtering keeps a listing free of repeats and newest first. */
  lemma {:induction false} OwnedByKeepsOrder(order: seq<Book>, owner: ObjectId)
    requires Distinct(order) && NewestFirst(order)
    ensures Distinct(OwnedBy(order, owner)) && NewestFirst(OwnedBy(order, owner))
  {
    if order != [] {
      TailOrdered(order);
      OwnedByKeepsOrder(order[1..], owner);
      if order[0].user == owner {
        HeadIsNewest(order);
        PrependOrdered(order[0], OwnedBy(order[1..], owner));
      }
    }
  }

  /**
   * GET /api/books/user: the posts whose owner is `req.user._id`, newest
   * first, unpaginated. Without `req.user` the handler throws and answers 500.
   */
  function UserBooks(ctx: AuthContext, books: BookStore, order: seq<Book>, query: ServiceCall): (r: Response<BookReply>)
    requires IsNewestFirst(books.Values, order)
    ensures r.status == 200 || r.status == 500
    ensures r.status == 200 <==> ctx.userDocId.Some? && query.Succeeds?
    ensures r.status == 200 ==>
      && r.body.BookList?
      && forall b :: b in r.body.list <==> b in books.Values && b.user == ctx.userDocId.value
  {
    if ctx.userDocId.None? || query.Fails? then
      Response(500, Message(InternalError))
    else
      Response(200, BookList(OwnedBy(order, ctx.userDocId.value)))
  }

  /** The caller's list holds each of the caller's posts exactly once, newest first. */
  lemma UserBooksNewestFirst(caller: ObjectId, userIdProp: Option<ObjectId>, books: BookStore, order: seq<Book>)
    requires IsNewestFirst(books.Values, order)
    ensures var r := UserBooks(AuthContext(Some(caller), userIdProp), books, order, Succeeds);
      IsNewestFirst((set b | b in books.Values && b.user == caller), r.body.list)
  {
    OwnedByKeepsOrder(order, caller);
  }

  // ---------------------------------------------------------------------
  // DELETE /:id

  /**
   * The image store's key for an image URL: `url.split("/").pop().split(".")[0]`,
   * the last path segment up to its first dot.
   */
  function PublicId(url: string): (id: string)
    ensures '/' !in id && '.' !in id
  {
    var segments := Split(url, '/');
    var last := segments[|segments| - 1];
    var stem := Split(last, '.')[0];
    assert stem in Split(last, '.');
    assert last in segments;
    assert forall i :: 0 <= i < |stem| ==> stem[i] in last;
    stem
  }

  /** The public id sits at the start of the URL's last segment and runs up to a dot or the end. */
  lemma PublicIdLocation(url: string)
    ensures var id := PublicId(url);
      exists start :: StemAt(url, id, start)
  {
    var segments := Split(url, '/');
    var last := segments[|segments| - 1];
    var pieces := Split(last, '.');
    assert StemAt(url, pieces[0], |url| - |last|) by {
      assert '/' !in last;
      StemOfSplit(url, segments, pieces);
    }
    assert PublicId(url) == pieces[0];
  }

  /** The first dot-piece of the last slash-piece, located in the whole string. */
  lemma StemOfSplit(url: string, segments: seq<string>, pieces: seq<string>)
    requires |segments| >= 1 && Join(segments, '/') == url && '/' !in segments[|segments| - 1]
    requires |pieces| >= 1 && Join(pieces, '.') == segments[|segments| - 1]
    ensures StemAt(url, pieces[0], |url| - |segments[|segments| - 1]|)
  {
    LastPieceIsSuffix(segments, '/');
    FirstPieceIsPrefix(pieces, '.');
    StemAtFromPieces(url, segments[|segments| - 1], pieces[0]);
  }

  /** The stem of the last segment, located in the whole URL. */
  lemma StemAtFromPieces(url: string, last: string, id: string)
    requires |last| <= |url| && url[|url| - |last|..] == last
    requires |last| == |url| || url[|url| - |last| - 1] == '/'
    requires '/' !in last
    requires |id| <= |last| && last[..|id|] == id
    requires |id| == |last| || last[|id|] == '.'
    ensures StemAt(url, id, |url| - |last|)
  {
    var start := |url| - |last|;
    assert url[start..start + |id|] == last[..|id|];
    if |id| < |last| {
      assert url[start + |id|] == last[|id|];
    }
  }

  /**
   * `id` occurs at `start`, right after a slash or at the very beginning, no
   * slash follows it, and it is followed by a dot or by the end of the URL.
   */
  predicate StemAt(url: string, id: string, start: int) {
    && 0 <= start <= |url| - |id|
    && url[start..start + |id|] == id
    && (start == 0 || url[start - 1] == '/')
    && '/' !in url[start..]
    && (start + |id| == |url| || url[start + |id|] == '.')
  }

  /** For a URL `dir/stem.ext` whose stem has no dot, the public id is the stem. */
  lemma PublicIdOfPath(dir: string, stem: string, ext: string)
    requires '/' !in stem && '/' !in ext && '.' !in stem
    ensures PublicId(dir + "/" + stem + "." + ext) == stem
  {
    var file := stem + "." + ext;
    assert '/' !in file;
    assert dir + "/" + stem + "." + ext == dir + ['/'] + file;
    SplitLastPiece(dir, file, '/');
    SplitFirstPiece(stem, ext, '.');
  }

  /** `a + t + b` contains `t` right after `a`. */
  lemma OccursBetween(a: string, t: string, b: string)
    ensures OccursAt(a + t + b, t, |a|)
  {
    assert (a + t + b)[|a|..|a| + |t|] == t;
  }

  /** The URL in the handler's comment yields the key `qhuruuejhe`. */
  lemma SampleUrlPublicId()
    ensures PublicId("https://res.cloudinary.com/image/upload/v188383849/qhuruuejhe.png") == "qhuruuejhe"
  {
    var dir := "https://res.cloudinary.com/image/upload/v188383849";
    assert dir + "/" == "https://res.cloudinary.com/image/upload/v188383849/";
    assert "https://res.cloudinary.com/image/upload/v188383849/" + "qhuruuejhe"
      == "https://res.cloudinary.com/image/upload/v188383849/qhuruuejhe";
    assert "https://res.cloudinary.com/image/upload/v188383849/qhuruuejhe" + "."
      == "https://res.cloudinary.com/image/upload/v188383849/qhuruuejhe.";
    assert "https://res.cloudinary.com/image/upload/v188383849/qhuruuejhe." + "png"
      == "https://res.cloudinary.com/image/upload/v188383849/qhuruuejhe.png";
    PublicIdOfPath(dir, "qhuruuejhe", "png");
  }

  /** Any image URL that mentions "cloudinary" is recognised as an image-store URL. */
  lemma CloudinaryUrlRecognised(before: string, after: string)
    ensures var url := before + CloudinaryMarker + after;
      CleanupTarget(url) == Some(PublicId(url))
  {
    OccursBetween(before, CloudinaryMarker, after);
  }

  /** The image-store key `destroy` is called with: only for a non-empty URL mentioning "cloudinary". */
  function CleanupTarget(image: string): (r: Option<string>)
    ensures r.Some? <==> image != "" && Includes(image, CloudinaryMarker)
    ensures r.Some? ==> r.value == PublicId(image)
  {
    if image != "" && Includes(image, CloudinaryMarker) then Some(PublicId(image)) else None
  }

  /**
   * DELETE /api/books/:id. `lookup` and `removal` say whether `findById` and
   * `deleteOne` go through; `destroy` is the image store's answer, which
   * the handler only logs. Without `req.user_id` the ownership comparison
   * throws and the handler answers 500.
   */
  function DeleteBook(id: ObjectId, ctx: AuthContext, books: BookStore,
                      lookup: ServiceCall, destroy: ServiceCall, removal: ServiceCall): (r: DeleteOutcome)
    ensures r.response.status in {200, 401, 404, 500}
    ensures r.response.status != 200 ==> r.books == books
    ensures r.response.status == 404 <==> lookup.Succeeds? && id !in books
    ensures r.response.status == 401 <==>
      lookup.Succeeds? && id in books && ctx.userIdProp.Some? && ctx.userIdProp.value != books[id].user
    ensures r.response.status == 200 <==>
      lookup.Succeeds? && id in books && ctx.userIdProp == Some(books[id].user) && removal.Succeeds?
    ensures r.response.status == 200 ==> r.books == books - {id}
    ensures r.destroyRequest.Some? ==>
      && id in books
      && ctx.userIdProp == Some(books[id].user)
      && r.destroyRequest == CleanupTarget(books[id].image)
  {
    if lookup.Fails? then
      DeleteOutcome(Response(500, Message(InternalError)), books, None)
    else if id !in books then
      DeleteOutcome(Response(404, Message(BookNotFound)), books, None)
    else
      var book := books[id];
      if ctx.userIdProp.None? then
        DeleteOutcome(Response(500, Message(InternalError)), books, None)
      else if book.user != ctx.userIdProp.value then
        DeleteOutcome(Response(401, Message(NotOwner)), books, None)
      else
        var target := CleanupTarget(book.image);
        if removal.Fails? then
          DeleteOutcome(Response(500, Message(InternalError)), books, target)
        else
          DeleteOutcome(Response(200, Message(BookDeleted)), books - {id}, target)
  }

  /**
   * When the owner deletes a post, the image store is asked to destroy the
   * image exactly when its URL mentions "cloudinary", whatever it answers;
   * the post is gone and every other post is untouched.
   */
  lemma DeleteByOwner(id: ObjectId, caller: ObjectId, userDocId: Option<ObjectId>, books: BookStore, destroy: ServiceCall)
    requires id in books && books[id].user == caller
    ensures var r := DeleteBook(id, AuthContext(userDocId, Some(caller)), books, Succeeds, destroy, Succeeds);
      && r.response == Response(200, Message(BookDeleted))
      && id !in r.books
      && |r.books| == |books| - 1
      && (forall k :: k in books && k != id ==> k in r.books && r.books[k] == books[k])
      && (r.destroyRequest.Some? <==> Includes(books[id].image, CloudinaryMarker))
      && (r.destroyRequest.Some? ==> r.destroyRequest.value == PublicId(books[id].image))
  {
    var r := DeleteBook(id, AuthContext(userDocId, Some(caller)), books, Succeeds, destroy, Succeeds);
    assert r.books.Keys == books.Keys - {id};
    if Includes(books[id].image, CloudinaryMarker) {
      assert books[id].image != "";
    }
  }

  /** Deleting keeps every stored post valid and filed under its own id. */
  lemma DeleteKeepsStoreWellFormed(id: ObjectId, ctx: AuthContext, books: BookStore,
                                   lookup: ServiceCall, destroy: ServiceCall, removal: ServiceCall)
    requires WellFormedBooks(books)
    ensures WellFormedBooks(DeleteBook(id, ctx, books, lookup, destroy, removal).books)
  {
  }
}
