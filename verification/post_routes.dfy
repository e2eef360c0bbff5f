/** The post endpoints of `app/api/v1/posts.py` together with the response
    each outcome becomes. FastAPI first decodes a JSON request body, and
    refuses one that is not JSON at all before anything else; it then
    resolves the dependencies, so the bearer gate speaks next, and only
    then validates the path, query and body values. An `HTTPException` gets
    FastAPI's default `{"detail": ...}` body, and the handlers of
    `app/errors/handlers.py` answer validation and integrity errors. A
    `DataError` is handled by nobody and is a 500. */
module PostRoutes {
  import opened Wrappers
  import opened Json
  import opened Http
  import opened Validation
  import opened PostService
  import UsersRepo
  import Deps
  import ErrorHandlers
  import Decimal

  /** `PostOut`: a post as the API shows it (the deletion flag is hidden). */
  datatype PostOut = PostOut(id: string, authorId: int, title: string, content: string,
                             createdAt: int, updatedAt: int)

  function ToPostOut(p: Post): (v: PostOut)
    ensures v.id == p.id && v.authorId == p.authorId && v.title == p.title
            && v.content == p.content && v.createdAt == p.createdAt && v.updatedAt == p.updatedAt
  {
    PostOut(p.id, p.authorId, p.title, p.content, p.createdAt, p.updatedAt)
  }

  datatype Payload = OnePost(post: PostOut) | ManyPosts(posts: seq<PostOut>) | NoBody

  /** What the client receives. `ServerFault` is the bare 500 of an
      exception no handler takes. */
  datatype Response =
    | Success(status: int, payload: Payload)
    | Failure(status: int, content: Json, headers: seq<Header>)
    | ServerFault

  const Ok200: int := 200
  const Created201: int := 201
  const NoContent204: int := 204

  const PostNotFound: HttpException := HttpException(NotFound404, "Post not found", [])
  const NotTheOwner: HttpException := HttpException(Forbidden403, "Not the owner", [])

  const SkipDefault: nat := 0
  const LimitDefault: nat := 20
  const LimitMax: nat := 100

  /** An exception leaving an endpoint or its dependencies. */
  datatype Raised =
    | Http(e: HttpException)
    | Invalid(errors: seq<FieldError>)
    | Db(error: DbError)
    | Internal

  /** The response an exception becomes. */
  function Fail(x: Raised): (r: Response)
    ensures x.Http? ==> r == Failure(x.e.status, JObj([("detail", JStr(x.e.detail))]), x.e.headers)
    ensures x.Invalid? ==>
              r.Failure? && r.status == 422 && r.content == ErrorHandlers.ValidationErrorHandler(x.errors).content
    ensures x == Db(IntegrityError) ==>
              r.Failure? && r.status == 409 && r.content == ErrorHandlers.IntegrityErrorHandler().content
    ensures r.ServerFault? <==> x == Db(DataError) || x.Internal?
  {
    match x
    case Http(e) => Failure(e.status, JObj([("detail", JStr(e.detail))]), e.headers)
    case Invalid(errors) =>
      var h := ErrorHandlers.ValidationErrorHandler(errors);
      Failure(h.status, h.content, [])
    case Db(IntegrityError) =>
      var h := ErrorHandlers.IntegrityErrorHandler();
      Failure(h.status, h.content, [])
    case Db(DataError) => ServerFault
    case Internal => ServerFault
  }

  /** A request body as FastAPI reads it: JSON text that does not decode,
      with the character position where decoding stopped, or decoded JSON
      and the schema's verdict on it. */
  datatype RequestBody<T> = Undecodable(pos: nat) | Parsed(checked: Result<T, seq<FieldError>>)

  /** The `json_invalid` error FastAPI raises for an undecodable body, at
      location `("body", pos)`. */
  function JsonInvalid(pos: nat): (e: FieldError)
    ensures e.errorType == "json_invalid"
    ensures |e.loc| == 2 && e.loc[0] == "body" && Decimal.Parse(e.loc[1]) == Some(pos)
  {
    Decimal.ParseShow(pos);
    FieldError(["body", Decimal.Show(pos)], "json_invalid")
  }

  /** The bearer gate's verdict as a raised exception. */
  function GateRaised(g: Deps.GateError): (x: Raised)
    ensures g.Rejected? ==> x == Http(g.e)
    ensures g.ServerError? ==> x == Internal
  {
    match g
    case Rejected(e) => Http(e)
    case ServerError => Internal
  }

  /** The `post_id: uuid.UUID` path parameter; `isUuid` is the library's
      parsing rule. */
  function PathId(raw: string, isUuid: string -> bool): (r: Result<string, seq<FieldError>>)
    ensures r.Ok? <==> isUuid(raw)
    ensures r.Ok? ==> r.value == raw
    ensures r.Err? ==> r.error == [FieldError(["path", "post_id"], "uuid_parsing")]
  {
    if isUuid(raw) then Ok(raw) else Err([FieldError(["path", "post_id"], "uuid_parsing")])
  }

  /** The `skip` and `limit` query parameters: absent ones take their
      defaults, `skip >= 0` and `1 <= limit <= 100`. */
  function ListQuery(skip: Option<int>, limit: Option<int>): (r: Result<(nat, nat), seq<FieldError>>)
    ensures var s := if skip.Some? then skip.value else SkipDefault;
            var l := if limit.Some? then limit.value else LimitDefault;
            && (r.Ok? <==> 0 <= s && 1 <= l <= LimitMax)
            && (r.Ok? ==> r.value == (s, l))
            && (r.Err? ==> (HasErrorAt(r.error, ["query", "skip"]) <==> s < 0))
            && (r.Err? ==> (HasErrorAt(r.error, ["query", "limit"]) <==> !(1 <= l <= LimitMax)))
  {
    var s := if skip.Some? then skip.value else SkipDefault;
    var l := if limit.Some? then limit.value else LimitDefault;
    var skipErrors := if s < 0 then [FieldError(["query", "skip"], "greater_than_equal")] else [];
    var limitErrors :=
      if l < 1 then [FieldError(["query", "limit"], "greater_than_equal")]
      else if l > LimitMax then [FieldError(["query", "limit"], "less_than_equal")]
      else [];
    var errors := skipErrors + limitErrors;
    HasErrorAtAppend(skipErrors, limitErrors, ["query", "skip"]);
    HasErrorAtAppend(skipErrors, limitErrors, ["query", "limit"]);
    assert s < 0 ==> skipErrors[0] in skipErrors;
    assert !(1 <= l <= LimitMax) ==> limitErrors[0] in limitErrors;
    if |errors| == 0 then Ok((s, l)) else Err(errors)
  }

  /** `POST /`: 201 with the new post, authored by the caller. */
  function CreateRoute(t: Table, gate: Result<UsersRepo.User, Deps.GateError>,
                       body: RequestBody<PostCreate>, newId: string, now: int)
    : (r: (Table, Response))
    ensures body.Undecodable? ==> r == (t, Fail(Invalid([JsonInvalid(body.pos)])))
    ensures body.Parsed? && gate.Err? ==> r == (t, Fail(GateRaised(gate.error)))
    ensures body.Parsed? && gate.Ok? && body.checked.Err? ==> r == (t, Fail(Invalid(body.checked.error)))
    ensures body.Parsed? && gate.Ok? && body.checked.Ok? ==>
              var res := CreatePost(t, gate.value.id, body.checked.value, newId, now).1;
              res.Err? ==> r == (t, Fail(Db(res.error)))
    ensures r.1.Success? <==>
              body.Parsed? && body.checked.Ok? && gate.Ok?
              && CreatePost(t, gate.value.id, body.checked.value, newId, now).1.Ok?
    ensures r.1.Success? ==>
              var data := body.checked.value;
              var title := StoredTitle(data.title).value;
              && r.1.status == Created201
              && r.0 == t + [Post(newId, gate.value.id, title, data.content, false, now, now)]
              && r.1.payload == OnePost(PostOut(newId, gate.value.id, title, data.content, now, now))
    ensures !r.1.Success? ==> r.0 == t
    ensures Valid(t) ==> Valid(r.0)
  {
    match body
    case Undecodable(pos) => (t, Fail(Invalid([JsonInvalid(pos)])))
    case Parsed(checked) =>
      match gate
      case Err(g) => (t, Fail(GateRaised(g)))
      case Ok(user) =>
        match checked
        case Err(errors) => (t, Fail(Invalid(errors)))
        case Ok(data) =>
          var (t2, res) := CreatePost(t, user.id, data, newId, now);
          match res
          case Ok(p) => (t2, Success(Created201, OnePost(ToPostOut(p))))
          case Err(e) => (t2, Fail(Db(e)))
  }

  function ToPostOuts(ps: seq<Post>): (vs: seq<PostOut>)
    ensures |vs| == |ps| && forall i :: 0 <= i < |ps| ==> vs[i] == ToPostOut(ps[i])
  {
    if |ps| == 0 then [] else [ToPostOut(ps[0])] + ToPostOuts(ps[1..])
  }

  /** `GET /`: one page of the listing; no credentials needed. */
  function ListRoute(t: Table, q: Option<string>, skip: Option<int>, limit: Option<int>): (r: Response)
    ensures ListQuery(skip, limit).Err? ==> r == Fail(Invalid(ListQuery(skip, limit).error))
    ensures ListQuery(skip, limit).Ok? ==>
              var (s, l) := ListQuery(skip, limit).value;
              r == Success(Ok200, ManyPosts(ToPostOuts(ListPosts(t, q, s, l))))
    ensures r.Success? ==> r.payload.ManyPosts? && |r.payload.posts| <= LimitMax
  {
    match ListQuery(skip, limit)
    case Err(errors) => Fail(Invalid(errors))
    case Ok((s, l)) => Success(Ok200, ManyPosts(ToPostOuts(ListPosts(t, q, s, l))))
  }

  /** `GET /{post_id}`: the live post, or 404; no credentials needed. */
  function GetRoute(t: Table, raw: string, isUuid: string -> bool): (r: Response)
    ensures !isUuid(raw) ==> r == Fail(Invalid([FieldError(["path", "post_id"], "uuid_parsing")]))
    ensures isUuid(raw) ==>
              (r.Success? <==> exists p :: p in t && p.id == raw && !p.isDeleted)
    ensures isUuid(raw) && !r.Success? ==> r == Fail(Http(PostNotFound))
    ensures r.Success? ==>
              && r.status == Ok200 && r.payload.OnePost?
              && exists p :: p in t && p.id == raw && !p.isDeleted && r.payload.post == ToPostOut(p)
  {
    match PathId(raw, isUuid)
    case Err(errors) => Fail(Invalid(errors))
    case Ok(id) =>
      match GetPost(t, id, false)
      case None => Fail(Http(PostNotFound))
      case Some(p) => Success(Ok200, OnePost(ToPostOut(p)))
  }

  /** `PATCH /{post_id}`: the author's partial update. `None` from the
      service becomes 404, `PermissionError` becomes 403. */
  function UpdateRoute(t: Table, gate: Result<UsersRepo.User, Deps.GateError>, raw: string,
                       isUuid: string -> bool, body: RequestBody<PostUpdate>, now: int)
    : (r: (Table, Response))
    ensures !r.1.Success? ==> r.0 == t
    ensures body.Undecodable? ==> r.1 == Fail(Invalid([JsonInvalid(body.pos)]))
    ensures body.Parsed? && gate.Err? ==> r.1 == Fail(GateRaised(gate.error))
    ensures body.Parsed? && gate.Ok? && isUuid(raw) && body.checked.Ok? ==>
              var o := UpdatePost(t, raw, gate.value.id, body.checked.value, now);
              && r.0 == o.0
              && (o.1.Done? ==> r.1 == Success(Ok200, OnePost(ToPostOut(o.1.value))))
              && (o.1.Missing? ==> r.1 == Fail(Http(PostNotFound)))
              && (o.1.NotOwner? ==> r.1 == Fail(Http(NotTheOwner)))
              && (o.1.Failed? ==> r.1 == Fail(Db(o.1.error)))
    ensures body.Parsed? && gate.Ok? && !(isUuid(raw) && body.checked.Ok?) ==>
              && r.1.Failure? && r.1.status == 422
              && r.1 == Fail(Invalid((if isUuid(raw) then [] else PathId(raw, isUuid).error)
                                     + (if body.checked.Err? then body.checked.error else [])))
    ensures Valid(t) ==> Valid(r.0)
  {
    match body
    case Undecodable(pos) => (t, Fail(Invalid([JsonInvalid(pos)])))
    case Parsed(checked) =>
      match gate
      case Err(g) => (t, Fail(GateRaised(g)))
      case Ok(user) =>
        if !isUuid(raw) || checked.Err? then
          var errors := (if isUuid(raw) then [] else PathId(raw, isUuid).error)
                        + (if checked.Err? then checked.error else []);
          (t, Fail(Invalid(errors)))
        else
          var (t2, o) := UpdatePost(t, raw, user.id, checked.value, now);
          match o
          case Done(p) => (t2, Success(Ok200, OnePost(ToPostOut(p))))
          case Missing => (t2, Fail(Http(PostNotFound)))
          case NotOwner => (t2, Fail(Http(NotTheOwner)))
          case Failed(e) => (t2, Fail(Db(e)))
  }

  /** `DELETE /{post_id}`: the author's soft delete, 204 without a body. */
  function DeleteRoute(t: Table, gate: Result<UsersRepo.User, Deps.GateError>, raw: string,
                       isUuid: string -> bool, now: int)
    : (r: (Table, Response))
    ensures !r.1.Success? ==> r.0 == t
    ensures gate.Err? ==> r.1 == Fail(GateRaised(gate.error))
    ensures gate.Ok? && !isUuid(raw) ==> r.1 == Fail(Invalid(PathId(raw, isUuid).error))
    ensures gate.Ok? && isUuid(raw) ==>
              var o := DeletePost(t, raw, gate.value.id, now);
              && r.0 == o.0
              && (o.1.Done? ==> r.1 == Success(NoContent204, NoBody))
              && (o.1.Missing? ==> r.1 == Fail(Http(PostNotFound)))
              && (o.1.NotOwner? ==> r.1 == Fail(Http(NotTheOwner)))
    ensures Valid(t) ==> Valid(r.0)
  {
    match gate
    case Err(g) => (t, Fail(GateRaised(g)))
    case Ok(user) =>
      match PathId(raw, isUuid)
      case Err(errors) => (t, Fail(Invalid(errors)))
      case Ok(id) =>
        var (t2, o) := DeletePost(t, id, user.id, now);
        match o
        case Done(_) => (t2, Success(NoContent204, NoBody))
        case Missing => (t2, Fail(Http(PostNotFound)))
        case NotOwner => (t2, Fail(Http(NotTheOwner)))
        case Failed(e) => (t2, Fail(Db(e)))
  }

  /** A created post can be read back at once, exactly as the creation
      response showed it. */
  lemma CreateThenGet(t: Table, user: UsersRepo.User, data: PostCreate, newId: string, now: int,
                      isUuid: string -> bool)
    requires Valid(t) && isUuid(newId)
    requires CreateRoute(t, Ok(user), Parsed(Ok(data)), newId, now).1.Success?
    ensures var (t2, created) := CreateRoute(t, Ok(user), Parsed(Ok(data)), newId, now);
      GetRoute(t2, newId, isUuid) == Success(Ok200, created.payload)
  {
    var (t2, created) := CreateRoute(t, Ok(user), Parsed(Ok(data)), newId, now);
    var p := t2[|t2| - 1];
    assert p in t2;
    var q := GetPost(t2, newId, false).value;
    var i :| 0 <= i < |t2| && t2[i] == q;
    assert t2[i].id == t2[|t2| - 1].id;
  }

  /** After a successful update, reading the post answers exactly what the
      update answered. */
  lemma UpdateThenGet(t: Table, user: UsersRepo.User, raw: string, isUuid: string -> bool,
                      u: PostUpdate, now: int)
    requires Valid(t) && isUuid(raw)
    requires UpdateRoute(t, Ok(user), raw, isUuid, Parsed(Ok(u)), now).1.Success?
    ensures var (t2, updated) := UpdateRoute(t, Ok(user), raw, isUuid, Parsed(Ok(u)), now);
      GetRoute(t2, raw, isUuid) == updated
  {
    PostService.UpdateThenGet(t, raw, user.id, u, now);
  }

  /** Once deleted, a post answers 404 to every reader and to a second
      delete, which changes nothing. */
  lemma DeleteThenGone(t: Table, user: UsersRepo.User, raw: string, isUuid: string -> bool,
                       now: int, later: int)
    requires Valid(t) && isUuid(raw)
    requires DeleteRoute(t, Ok(user), raw, isUuid, now).1.Success?
    ensures var t2 := DeleteRoute(t, Ok(user), raw, isUuid, now).0;
      && GetRoute(t2, raw, isUuid) == Fail(Http(PostNotFound))
      && DeleteRoute(t2, Ok(user), raw, isUuid, later) == (t2, Fail(Http(PostNotFound)))
  {
    DeleteTwice(t, raw, user.id, now, later);
  }

  /** Someone other than the author gets 403 for a live post, whatever the
      patch, and the table does not change. */
  lemma OthersForbidden(t: Table, user: UsersRepo.User, raw: string, isUuid: string -> bool,
                        u: PostUpdate, now: int)
    requires Valid(t) && isUuid(raw)
    requires GetPost(t, raw, false).Some? && GetPost(t, raw, false).value.authorId != user.id
    ensures UpdateRoute(t, Ok(user), raw, isUuid, Parsed(Ok(u)), now) == (t, Fail(Http(NotTheOwner)))
    ensures DeleteRoute(t, Ok(user), raw, isUuid, now) == (t, Fail(Http(NotTheOwner)))
    ensures Fail(Http(NotTheOwner)).status == 403
  {
    NonOwnerChangesNothing(t, raw, user.id, u, now);
  }
}
