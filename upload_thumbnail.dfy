/**
 * The write side (handler_upload_thumbnail.go): a fixed chain of fail-fast checks,
 * then the thumbnail bytes are stored in the video record as a `data:` URL
 * (RFC 2397) whose payload is base64 with the standard alphabet (section 4 of
 * RFC 4648).
 *
 * Every external step is an input: uuid.Parse, auth.GetBearerToken,
 * auth.ValidateJWT, cfg.db.GetVideo, r.ParseMultipartForm, r.FormFile, io.ReadAll,
 * time.Now and cfg.db.UpdateVideo each contribute the outcome they report.
 */
module ThumbnailUpload {
  import opened Wrappers
  import opened Http
  import opened Videos
  import Base64

  /** The `thumbnail` form part: its header's Content-Type ("" when absent) and what
      reading it produced (None when io.ReadAll failed). */
  datatype FilePart = FilePart(contentType: string, contents: Option<seq<Base64.byte>>)

  /** The outcome of each external step the handler consults, in its order. */
  datatype UploadRequest = UploadRequest(
    videoID: Option<Uuid>,        // uuid.Parse of the path value
    bearerToken: Option<string>,  // auth.GetBearerToken
    jwtUser: Option<Uuid>,        // auth.ValidateJWT of that token with the secret
    lookup: Lookup,               // cfg.db.GetVideo
    formParsed: bool,             // r.ParseMultipartForm succeeded
    thumbnail: Option<FilePart>,  // r.FormFile("thumbnail")
    now: int,                     // time.Now()
    updateSucceeds: bool)         // cfg.db.UpdateVideo

  /** Each early return of the handler. */
  datatype Failure =
    | InvalidID
    | MissingJwt
    | InvalidJwt
    | VideoNotFound(id: Uuid)
    | UnparsableForm
    | MissingThumbnail
    | MissingMediaType
    | ReadFailed
    | UpdateFailed

  function StatusOf(f: Failure): int
  {
    match f
    case InvalidID | UnparsableForm | MissingThumbnail | MissingMediaType => StatusBadRequest
    case MissingJwt | InvalidJwt => StatusUnauthorized
    case VideoNotFound(_) => StatusNotFound
    case ReadFailed | UpdateFailed => StatusInternalServerError
  }

  function MessageOf(f: Failure): string
  {
    match f
    case InvalidID => "Invalid ID"
    case MissingJwt => "Couldn't find JWT"
    case InvalidJwt => "Couldn't validate JWT"
    case VideoNotFound(id) => "Unable to find video with ID " + id
    case UnparsableForm => "Unable to parse thumbnail request"
    case MissingThumbnail => "Unable to parse thumbnail payload"
    case MissingMediaType => "Thumbnail is missing media type"
    case ReadFailed => "Unable to store thumbnail"
    case UpdateFailed => "Unable to update thumbnail data"
  }

  /** An error body with its status, or 200 with the updated record as JSON. */
  datatype UploadResponse = UploadError(status: int, message: string) | UploadOk(video: Video)
  {
    function Status(): int
    {
      if UploadError? then status else StatusOK
    }
  }

  /** respondWithError for one failure. */
  function Reject(f: Failure): UploadResponse
  {
    UploadError(StatusOf(f), MessageOf(f))
  }

  /** The stored reference: `data:<mediaType>;base64,<payload>`, the RFC 2397 layout
      with the media type verbatim and a length fixed by the two inputs. */
  function DataUrl(mediaType: string, data: seq<Base64.byte>): (url: string)
    ensures |url| == 13 + |mediaType| + 4 * ((|data| + 2) / 3)
    ensures url[..5] == "data:"
    ensures url[5..5 + |mediaType|] == mediaType
    ensures url[5 + |mediaType|..13 + |mediaType|] == ";base64,"
    ensures url[13 + |mediaType|..] == Base64.Encode(data)
  {
    "data:" + mediaType + ";base64," + Base64.Encode(data)
  }

  /** The reference loses nothing: its payload decodes back to exactly the bytes. */
  lemma DataUrlPayloadDecodes(mediaType: string, data: seq<Base64.byte>)
    ensures Base64.Decode(DataUrl(mediaType, data)[13 + |mediaType|..]) == Some(data)
  {
    Base64.DecodeEncode(data);
  }

  /** The number of checks in the chain; the last one is the record update. */
  const Steps: nat := 9

  /** Whether the handler's check number `step` (counting from 0, in its order) passes. */
  predicate Passes(req: UploadRequest, step: nat)
  {
    match step
    case 0 => req.videoID.Some?
    case 1 => req.bearerToken.Some?
    case 2 => req.jwtUser.Some?
    case 3 => req.lookup.err != ErrNoRows
    case 4 => req.formParsed
    case 5 => req.thumbnail.Some?
    case 6 => req.thumbnail.Some? && req.thumbnail.value.contentType != ""
    case 7 => req.thumbnail.Some? && req.thumbnail.value.contents.Some?
    case 8 => req.updateSucceeds
    case _ => true
  }

  /** The check whose failure each early return reports. */
  function StepOf(f: Failure): nat
  {
    match f
    case InvalidID => 0
    case MissingJwt => 1
    case InvalidJwt => 2
    case VideoNotFound(_) => 3
    case UnparsableForm => 4
    case MissingThumbnail => 5
    case MissingMediaType => 6
    case ReadFailed => 7
    case UpdateFailed => 8
  }

  /** The first check that fails, in the handler's order; None when all pass. */
  function FirstFailure(req: UploadRequest): (r: Option<Failure>)
    ensures r.Some? ==> StepOf(r.value) < Steps && !Passes(req, StepOf(r.value))
    ensures r.Some? ==> forall step: nat | step < StepOf(r.value) :: Passes(req, step)
    ensures r.None? <==> forall step: nat | step < Steps :: Passes(req, step)
    ensures r.Some? && r.value.VideoNotFound? ==> req.videoID == Some(r.value.id)
  {
    if req.videoID.None? then Some(InvalidID)
    else if req.bearerToken.None? then Some(MissingJwt)
    else if req.jwtUser.None? then Some(InvalidJwt)
    else if req.lookup.err == ErrNoRows then Some(VideoNotFound(req.videoID.value))
    else if !req.formParsed then Some(UnparsableForm)
    else if req.thumbnail.None? then Some(MissingThumbnail)
    else if req.thumbnail.value.contentType == "" then Some(MissingMediaType)
    else if req.thumbnail.value.contents.None? then Some(ReadFailed)
    else if !req.updateSucceeds then Some(UpdateFailed)
    else None
  }

  /** The checks that precede the write of the record all passed. */
  predicate ReachesUpdate(req: UploadRequest)
  {
    FirstFailure(req).None? || FirstFailure(req) == Some(UpdateFailed)
  }

  /** The looked-up record with the new reference and timestamp: what the handler hands
      to UpdateVideo. */
  function Updated(req: UploadRequest): Video
    requires ReachesUpdate(req)
  {
    var part := req.thumbnail.value;
    req.lookup.video.(thumbnailURL := Some(DataUrl(part.contentType, part.contents.value)), updatedAt := req.now)
  }

  /** What the handler answers, and the record it submits to UpdateVideo, if any. */
  datatype UploadOutcome = UploadOutcome(response: UploadResponse, submitted: Option<Video>)

  /** The decision chain as a function of the external outcomes: a record reaches
      UpdateVideo exactly when every check before the update passes, the answer is 200
      exactly when all of them pass, and otherwise it is the first failing check's
      status and message. */
  function UploadThumbnail(req: UploadRequest): (out: UploadOutcome)
    ensures out.submitted.Some? <==> forall step: nat | step < Steps - 1 :: Passes(req, step)
    ensures out.response.UploadOk? <==> forall step: nat | step < Steps :: Passes(req, step)
    ensures out.response.UploadError? ==> FirstFailure(req).Some? && out.response == Reject(FirstFailure(req).value)
    ensures out.submitted.Some? ==> ReachesUpdate(req) && out.submitted.value == Updated(req)
    ensures out.response.UploadOk? ==> out.submitted == Some(out.response.video)
  {
    match FirstFailure(req)
    case None => UploadOutcome(UploadOk(Updated(req)), Some(Updated(req)))
    case Some(UpdateFailed) => UploadOutcome(Reject(UpdateFailed), Some(Updated(req)))
    case Some(f) => UploadOutcome(Reject(f), None)
  }

  /** dbVideoDraft: the record GetVideo returned, held by the handler while it
      assigns the new reference and timestamp. */
  class VideoDraft {
    var id: Uuid
    var createdAt: int
    var updatedAt: int
    var thumbnailURL: Option<string>
    var videoURL: Option<string>
    var title: string
    var description: string
    var userID: Uuid

    constructor (v: Video)
      ensures Value() == v
    {
      id, createdAt, updatedAt := v.id, v.createdAt, v.updatedAt;
      thumbnailURL, videoURL := v.thumbnailURL, v.videoURL;
      title, description, userID := v.title, v.description, v.userID;
    }

    function Value(): Video
      reads this
    {
      Video(id, createdAt, updatedAt, thumbnailURL, videoURL, title, description, userID)
    }
  }

  /** handlerUploadThumbnail: the early returns in order, then the two assignments to
      the draft and the update; `submitted` is the record passed to UpdateVideo. */
  method HandleUploadThumbnail(req: UploadRequest) returns (resp: UploadResponse, submitted: Option<Video>)
    ensures UploadOutcome(resp, submitted) == UploadThumbnail(req)
    ensures resp.UploadOk? ==> submitted == Some(resp.video)
    ensures submitted.Some? ==>
      submitted.value.(thumbnailURL := req.lookup.video.thumbnailURL, updatedAt := req.lookup.video.updatedAt) == req.lookup.video
  {
    submitted := None;
    if req.videoID.None? {
      resp := Reject(InvalidID);
      return;
    }
    var videoID := req.videoID.value;
    if req.bearerToken.None? {
      resp := Reject(MissingJwt);
      return;
    }
    if req.jwtUser.None? {
      resp := Reject(InvalidJwt);
      return;
    }
    var draft := new VideoDraft(req.lookup.video);
    if req.lookup.err == ErrNoRows {
      resp := Reject(VideoNotFound(videoID));
      return;
    }
    if !req.formParsed {
      resp := Reject(UnparsableForm);
      return;
    }
    if req.thumbnail.None? {
      resp := Reject(MissingThumbnail);
      return;
    }
    var mediaType := req.thumbnail.value.contentType;
    if mediaType == "" {
      resp := Reject(MissingMediaType);
      return;
    }
    if req.thumbnail.value.contents.None? {
      resp := Reject(ReadFailed);
      return;
    }
    var bytes := req.thumbnail.value.contents.value;
    var dataUrl := DataUrl(mediaType, bytes);
    draft.thumbnailURL := Some(dataUrl);
    draft.updatedAt := req.now;
    submitted := Some(draft.Value());
    if !req.updateSucceeds {
      resp := Reject(UpdateFailed);
      return;
    }
    resp := UploadOk(draft.Value());
  }

  /** An unparseable video ID answers 400 whatever every later step would report, and
      nothing reaches UpdateVideo. */
  lemma InvalidIdStopsFirst(req: UploadRequest, other: UploadRequest)
    requires req.videoID.None? && other.videoID.None?
    ensures UploadThumbnail(req) == UploadThumbnail(other) == UploadOutcome(UploadError(StatusBadRequest, "Invalid ID"), None)
  {
  }

  /** A missing bearer token or a token that fails validation answers 401, whatever the
      lookup and later steps would report, and nothing reaches UpdateVideo. */
  lemma UnauthenticatedStops(req: UploadRequest, other: UploadRequest)
    requires req.videoID.Some? && (req.bearerToken.None? || req.jwtUser.None?)
    requires other.videoID == req.videoID && other.bearerToken == req.bearerToken && other.jwtUser == req.jwtUser
    ensures UploadThumbnail(req) == UploadThumbnail(other)
    ensures UploadThumbnail(req).response.Status() == StatusUnauthorized
    ensures UploadThumbnail(req).submitted.None?
  {
  }

  /** Only sql.ErrNoRows stops the request with 404; any other lookup error is ignored and
      the chain goes on with the record GetVideo returned alongside it. */
  lemma OnlyNoRowsIsNotFound(req: UploadRequest)
    requires req.videoID.Some? && req.bearerToken.Some? && req.jwtUser.Some?
    ensures req.lookup.err == ErrNoRows ==>
      UploadThumbnail(req) == UploadOutcome(UploadError(StatusNotFound, "Unable to find video with ID " + req.videoID.value), None)
    ensures req.lookup.err == OtherError ==>
      UploadThumbnail(req) == UploadThumbnail(req.(lookup := Lookup(req.lookup.video, NoError)))
    ensures req.lookup.err != ErrNoRows ==> UploadThumbnail(req).response.Status() != StatusNotFound
  {
  }

  /** A failed multipart parse, a missing `thumbnail` field and an empty part
      Content-Type each answer 400 and leave the record unwritten. */
  lemma FormFailuresAreBadRequest(req: UploadRequest)
    requires req.videoID.Some? && req.bearerToken.Some? && req.jwtUser.Some? && req.lookup.err != ErrNoRows
    requires !req.formParsed || req.thumbnail.None? || req.thumbnail.value.contentType == ""
    ensures UploadThumbnail(req).response.Status() == StatusBadRequest
    ensures UploadThumbnail(req).submitted.None?
  {
  }

  /** Once the form checks pass, a read error answers 500 without writing, and an update
      error answers 500 after submitting the new record. */
  lemma StorageFailuresAreServerErrors(req: UploadRequest)
    requires req.videoID.Some? && req.bearerToken.Some? && req.jwtUser.Some? && req.lookup.err != ErrNoRows
    requires req.formParsed && req.thumbnail.Some? && req.thumbnail.value.contentType != ""
    ensures req.thumbnail.value.contents.None? ==>
      UploadThumbnail(req) == UploadOutcome(UploadError(StatusInternalServerError, "Unable to store thumbnail"), None)
    ensures req.thumbnail.value.contents.Some? && !req.updateSucceeds ==>
      var part := req.thumbnail.value;
      UploadThumbnail(req) == UploadOutcome(UploadError(StatusInternalServerError, "Unable to update thumbnail data"),
        Some(req.lookup.video.(thumbnailURL := Some(DataUrl(part.contentType, part.contents.value)), updatedAt := req.now)))
  {
  }

  /** 200 exactly when every step succeeded. */
  lemma OkIffEveryStepSucceeds(req: UploadRequest)
    ensures UploadThumbnail(req).response.UploadOk? <==>
      && req.videoID.Some? && req.bearerToken.Some? && req.jwtUser.Some?
      && req.lookup.err != ErrNoRows && req.formParsed && req.thumbnail.Some?
      && req.thumbnail.value.contentType != "" && req.thumbnail.value.contents.Some?
      && req.updateSucceeds
    ensures UploadThumbnail(req).response.Status() in {StatusOK, StatusBadRequest, StatusUnauthorized, StatusNotFound, StatusInternalServerError}
  {
  }

  /** On success the stored reference is the data URL of the part's Content-Type, taken
      verbatim, and its bytes; only `thumbnailURL` and `updatedAt` differ from the looked-up
      record. */
  lemma OkStoresDataUrl(req: UploadRequest)
    requires UploadThumbnail(req).response.UploadOk?
    ensures var v := UploadThumbnail(req).response.video;
      var part := req.thumbnail.value;
      && v.thumbnailURL == Some("data:" + part.contentType + ";base64," + Base64.Encode(part.contents.value))
      && v.updatedAt == req.now
      && v.(thumbnailURL := req.lookup.video.thumbnailURL, updatedAt := req.lookup.video.updatedAt) == req.lookup.video
      && UploadThumbnail(req).submitted == Some(v)
  {
  }

  /** No media type is refused: replacing a non-empty Content-Type by any other
      non-empty one changes the stored reference and nothing else about the outcome. */
  lemma AnyMediaTypeAccepted(req: UploadRequest, mediaType: string)
    requires req.thumbnail.Some? && req.thumbnail.value.contentType != "" && mediaType != ""
    ensures var other := req.(thumbnail := Some(req.thumbnail.value.(contentType := mediaType)));
      && UploadThumbnail(other).response.Status() == UploadThumbnail(req).response.Status()
      && (UploadThumbnail(other).response.UploadOk? ==>
            UploadThumbnail(other).response.video.thumbnailURL == Some(DataUrl(mediaType, req.thumbnail.value.contents.value)))
  {
    var other := req.(thumbnail := Some(req.thumbnail.value.(contentType := mediaType)));
    assert FirstFailure(other).None? <==> FirstFailure(req).None?;
    assert FirstFailure(other) == FirstFailure(req);
  }

  /** The authenticated user's identity plays no part beyond validation succeeding. */
  lemma UserIdIrrelevant(req: UploadRequest, user: Uuid)
    requires req.jwtUser.Some?
    ensures UploadThumbnail(req.(jwtUser := Some(user))) == UploadThumbnail(req)
  {
    var other := req.(jwtUser := Some(user));
    assert FirstFailure(other) == FirstFailure(req);
    if ReachesUpdate(req) {
      assert Updated(other) == Updated(req);
    }
  }
}
