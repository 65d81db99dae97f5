# Thumbnail data-URL pipeline

A Dafny model of the two HTTP handlers that store and serve video thumbnails.

- **Upload** (`handlerUploadThumbnail`) runs a fixed chain of fail-fast checks:
  1. the video ID parses;
  2. a bearer token is present;
  3. the JWT validates;
  4. the video exists;
  5. the multipart form parses;
  6. a `thumbnail` part is present;
  7. that part has a non-empty `Content-Type`;
  8. the part's bytes are read;
  9. the record update succeeds.

  It then stores the thumbnail inside the video record as a `data:` URL (RFC 2397): `data:<media type>;base64,<payload>`. The payload is the file's bytes in base 64 with the standard alphabet and `=` padding (section 4 of RFC 4648). Only the record's thumbnail reference and update time change.
- **Read** (`handlerThumbnailGet`) looks the video up. It searches the stored reference for the pattern `data:image\/([a-zA-Z]+);base64,\w+={0,2}`, taking Go's leftmost match. It answers with:
  - `Content-Type`: the whole matched text;
  - `Content-Length`: the byte length of the reference;
  - body: the reference text itself.

Modules:

- `Base64` (`base64.dfy`): the encoder of section 4 of RFC 4648, and a strict decoder as its partner. It proves that encoding is a bijection onto the strings that decode, in both directions.
- `ThumbnailUpload` (`upload_thumbnail.dfy`):
  - the decision chain as a function of what each external step reports;
  - the handler as a method that assigns two fields of a `VideoDraft` object, proved equal to that function;
  - one lemma per outcome class.
- `ThumbnailGet` (`get_thumbnail.dfy`):
  - the pattern as a ghost predicate `Matches(s, i, j)`;
  - a greedy matcher proved to return the leftmost, then longest, match. For this pattern that is the match Go's leftmost-first engine returns, because the pattern never needs to backtrack;
  - the handler's response.
- `RoundTrip` (`round_trip.dfy`): which uploaded references the read handler serves back.
- `Videos`, `Http`, `Wrappers`: the video record, status codes and `Option`.

Go strings are byte strings. A `string` here stands for one: each `char` is meant as one byte, and `|s|` as Go's `len(s)`. The types do not enforce this (see "## Left out").

Where the code and the system's design differ, the model follows the code:

- No allow-list of media types is enforced. Any non-empty `Content-Type` is stored verbatim (`ThumbnailUpload.AnyMediaTypeAccepted`).
- No ownership check is made. The authenticated user ID is only printed (`ThumbnailUpload.UserIdIrrelevant`).
- A lookup error other than "no rows" does not stop the upload (`ThumbnailUpload.OnlyNoRowsIsNotFound`).
- The read side does not decode the payload. It serves the data-URL text, with the whole matched text as `Content-Type` (`RoundTrip.UploadThenGetWholeType`).
- An upload is not always readable back. For every media type, an `image/<letters>` type with a non-empty file whose first byte is below 248 is served (`RoundTrip.RecognisedIsServed`). For a media type with no `;` and no `:`, three kinds of reference are never served:
  - an empty file;
  - a file whose first byte is 248 or more. A JPEG file starts with 0xFF, whose top six bits encode as `/`;
  - a media type that is not `image/` followed by letters.

  For those media types `RoundTrip.UploadThenGet` states exactly which references are served. A media type holding `;` or `:` may itself carry text the pattern matches, for example `image/png;base64,AAAA`, and is not characterised.

## Model

| member | source | states |
|---|---|---|
| Base64.SymbolInverse | handler_upload_thumbnail.go:96 | every 6-bit value has a symbol of the standard alphabet, never `=`, and reading the symbol back gives the value |
| Base64.Quantum | handler_upload_thumbnail.go:96 | a group of three bytes encodes as four alphabet symbols |
| Base64.Encode | handler_upload_thumbnail.go:96 | `EncodeToString` output has length 4·⌈n/3⌉; it holds only alphabet symbols, with `=` only in the last two positions and ending the string |
| Base64.EncodePadding | handler_upload_thumbnail.go:96 | the padding is fixed by n mod 3: none, `==` after one trailing byte, `=` after two, with a symbol before it |
| Base64.EncodeFirstSymbol | handler_upload_thumbnail.go:96 | the first payload character is the symbol of the top six bits of the first byte |
| Base64.DecodeEncode | handler_upload_thumbnail.go:96 | decoding the encoding of any bytes gives them back: the reference loses nothing |
| Base64.EncodeDecode | handler_upload_thumbnail.go:96 | every string that decodes is the encoding of its decoding |
| Base64.RoundTrip | handler_upload_thumbnail.go:96 | `Decode(s) == Some(b)` exactly when `Encode(b) == s` |
| ThumbnailUpload.DataUrl | handler_upload_thumbnail.go:96 | the reference has length 13 + \|media type\| + 4·⌈n/3⌉; it begins `data:`, holds the media type verbatim, then `;base64,`, then the base64 encoding of the bytes |
| ThumbnailUpload.DataUrlPayloadDecodes | handler_upload_thumbnail.go:96 | the reference's payload decodes to exactly the uploaded bytes: the reference loses nothing |
| ThumbnailUpload.FirstFailure | handler_upload_thumbnail.go:19-108 | the failure reported is the first of the nine checks, in the handler's order, that does not pass: every earlier check passes; there is none exactly when all nine pass; a 404 names the parsed ID |
| ThumbnailUpload.UploadThumbnail | handler_upload_thumbnail.go:19-111 | a record reaches UpdateVideo exactly when the eight checks before it pass; the answer is 200 with the submitted record exactly when all nine pass; otherwise it is the first failing check's status and message |
| ThumbnailUpload.VideoDraft.constructor | handler_upload_thumbnail.go:41 | the draft holds the record GetVideo returned, field for field |
| ThumbnailUpload.HandleUploadThumbnail | handler_upload_thumbnail.go:19-111 | the early returns and the two field assignments give exactly the decision chain's response and submitted record; a submitted record differs from the looked-up one only in `thumbnailURL` and `updatedAt` |
| ThumbnailUpload.InvalidIdStopsFirst | handler_upload_thumbnail.go:20-25 | an unparseable ID answers 400 "Invalid ID" whatever every later step would report, and nothing reaches UpdateVideo |
| ThumbnailUpload.UnauthenticatedStops | handler_upload_thumbnail.go:27-37 | a missing token or a failed JWT validation answers 401, independent of the lookup and later steps, with no update |
| ThumbnailUpload.OnlyNoRowsIsNotFound | handler_upload_thumbnail.go:41-50 | "no rows" answers 404 naming the ID; any other lookup error gives the same outcome as a successful lookup of the returned record; only "no rows" gives 404 |
| ThumbnailUpload.FormFailuresAreBadRequest | handler_upload_thumbnail.go:52-84 | a failed multipart parse, a missing `thumbnail` part or an empty part Content-Type answers 400 and submits no record |
| ThumbnailUpload.StorageFailuresAreServerErrors | handler_upload_thumbnail.go:85-108 | once ID, token, JWT, lookup and form checks pass, a read error answers 500 "Unable to store thumbnail" without an update; an update error answers 500 "Unable to update thumbnail data" after submitting the looked-up record with the new reference and timestamp |
| ThumbnailUpload.OkIffEveryStepSucceeds | handler_upload_thumbnail.go:19-111 | 200 exactly when every one of the nine steps succeeded; every answer is 200, 400, 401, 404 or 500 |
| ThumbnailUpload.OkStoresDataUrl | handler_upload_thumbnail.go:96-110 | on 200 the returned and submitted record has reference `data:` + media type + `;base64,` + base64(bytes) and the request's timestamp; every other field is the looked-up record's |
| ThumbnailUpload.AnyMediaTypeAccepted | handler_upload_thumbnail.go:74-96 | swapping one non-empty media type for another never changes the status, and the stored reference embeds the new one verbatim: there is no allow-list |
| ThumbnailUpload.UserIdIrrelevant | handler_upload_thumbnail.go:33-39 | which user the JWT names never changes the outcome: there is no ownership check |
| Base64.RfcTestVectors | handler_upload_thumbnail.go:96 | the encoder gives the test vectors of section 10 of RFC 4648 up to one group: "", "f", "fo", "foo" encode as "", `Zg==`, `Zm8=`, `Zm9v` |
| Base64.RfcTestVectorFoob | handler_upload_thumbnail.go:96 | "foob" encodes as `Zm9vYg==`, as section 10 of RFC 4648 gives |
| Base64.RfcTestVectorFoobar | handler_upload_thumbnail.go:96 | "foobar" encodes as `Zm9vYmFy`, as section 10 of RFC 4648 gives |
| ThumbnailGet.Span | handler_get_thumbnail.go:11 | a greedy `+`/`*` over a character class ends at the first character outside the class |
| ThumbnailGet.PaddingEnd | handler_get_thumbnail.go:11 | the greedy `={0,2}` takes at most two `=` and stops only at a third `=`, the end, or another character |
| ThumbnailGet.MatchForced | handler_get_thumbnail.go:11 | in any match, the letters end where the greedy letter run ends, and the match ends no later than the greedy word run plus greedy padding |
| ThumbnailGet.MatchAt | handler_get_thumbnail.go:11 | the matcher at a position returns a match of the pattern that no other match from there outlasts, or none when no match starts there |
| ThumbnailGet.Find | handler_get_thumbnail.go:31 | `mediaTypeRe.Find` returns the leftmost match, longest at that start, and returns none only when no substring matches |
| ThumbnailGet.MatchedText | handler_get_thumbnail.go:11 | a match is at least 21 bytes, begins `data:image/`, and holds no `+` or `/` after the prefix, so a payload is cut at its first `+` or `/` |
| ThumbnailGet.HandleThumbnailGet | handler_get_thumbnail.go:13-40 | bad ID 400; any lookup error 404 "Thumbnail not found"; nil reference 404; served exactly when some substring matches, else 500; when served, the body is the reference, Content-Length its length, Content-Type the whole leftmost match |
| RoundTrip.MarkerPosition | handler_upload_thumbnail.go:96 | with no `;` in the media type, the only `;base64,` in a stored reference is the one after the media type |
| RoundTrip.MatchStartsAtZero | handler_get_thumbnail.go:11 | with no `;` or `:` in the media type, every match in a stored reference starts at its first byte |
| RoundTrip.RecognisedAtStart | handler_get_thumbnail.go:11 | with no `;` in the media type, a stored reference is matched at index 0 exactly when the media type is `image/<letters>` and the file is non-empty with first byte below 248, so its payload begins with a letter or digit |
| RoundTrip.FoundIff | handler_get_thumbnail.go:31 | with no `;` or `:` in the media type, the pattern finds anything at all in a stored reference exactly when the media type is `image/<letters>` and the file is non-empty with first byte below 248 |
| RoundTrip.WholeReferenceMatched | handler_get_thumbnail.go:31 | for an `image/<letters>` type and a non-empty payload without `+` or `/`, the match is the entire reference |
| RoundTrip.UploadThenGet | handler_get_thumbnail.go:31-40 | after a successful upload whose media type holds no `;` or `:`, a read of the stored record is served exactly when the media type is `image/<letters>` and the file is non-empty with first byte below 248, with the reference as body and its length as Content-Length; otherwise it answers 500 |
| RoundTrip.RecognisedIsServed | handler_get_thumbnail.go:31-40 | for any media type: after a successful upload of an `image/<letters>` file whose first byte is below 248, the read serves the reference as body with its length as Content-Length |
| RoundTrip.UploadThenGetWholeType | handler_get_thumbnail.go:37-40 | after a successful upload of a non-empty `image/<letters>` file whose payload has no `+` or `/`, the read sends the whole reference as Content-Type, as Content-Length source and as body |

## Left out

- HTTP plumbing is not modelled: `http.ResponseWriter`, `r.PathValue`, `respondWithError`, `respondWithJSON`. Responses are returned values: a status with a message, or the served headers and body.
- `uuid.Parse`, `auth.GetBearerToken` and `auth.ValidateJWT` are library or unshown code. Their outcomes are fields of `UploadRequest` and `GetRequest`.
- `cfg.db.GetVideo` and `cfg.db.UpdateVideo` are database calls. GetVideo is modelled as a returned record plus "no error", "no rows" or "other error". UpdateVideo is modelled as success or failure, and the model records the video submitted to it.
- `r.ParseMultipartForm` and `r.FormFile` are standard-library parsing, modelled only by their success or failure. The 10 MiB memory budget passed to the parser (handler_upload_thumbnail.go:17, 52) only affects how the parser behaves, which is an input, so the model has no constant for it.
- `io.ReadAll` is I/O: its result is an input (the bytes, or a failure).
- `time.Now()` is a clock: the timestamp is an input integer.
- Logging is not modelled: `fmt.Println` at line 39, `log.Printf` at line 54, and the error values handed to `respondWithError`, which only affect logging.
- The read handler's failure to write the body (handler_get_thumbnail.go:40-44) is not modelled. By then the status and headers are already sent, and the outcome depends only on the connection.
- The `database.Video` type is not part of this model. The model gives the record these fields: ID, creation and update times, nullable thumbnail and video URLs, title, description, and owner ID.
- The regular expression engine is not modelled in general. Only this one pattern is, with its leftmost-first semantics stated as leftmost-then-longest, which coincides with Go's for this pattern.
- Unicode is not modelled. A `string` stands for a Go byte string, but nothing stops it from holding a `char` of 256 or more. For such a string `|s|` is not Go's `len(s)`, so the Content-Length the model gives differs from the handler's. The model's claims about lengths hold only for strings whose characters are all below 256.
- RoundTrip.UploadThenGet: which references are served is stated only for media types holding no `;` and no `:`. Such a character lets the media type carry a `data:image/…;base64,…` text, or a `:` ahead of one, that the pattern matches. Whether the read then serves depends on that text, and the model does not characterise it. The served direction holds for every media type (`RoundTrip.RecognisedIsServed`).
- The system's design describes a media-type allow-list, a 403 ownership check, file-backed blob storage and a decoding read path. These handlers implement none of them, so the model has none.
