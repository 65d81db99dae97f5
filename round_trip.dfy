/**
 * The two handlers together: is a reference the upload handler stores found again
 * by the read handler's pattern? For every media type, an `image/<letters>` type
 * with a payload whose first base64 symbol is a letter or a digit is served. For a
 * media type with no `;` and no `:`, those are the only references served, which
 * rules out empty files and every file whose first byte is 248 or more (JPEG files
 * start with 0xFF, whose top six bits give `/`). A media type holding `;` or `:` can
 * carry a text the pattern matches elsewhere in the reference.
 */
module RoundTrip {
  import opened Wrappers
  import opened Videos
  import Base64
  import opened ThumbnailGet
  import opened ThumbnailUpload

  /** `image/` followed by one or more ASCII letters: the media types the pattern's
      `image\/([a-zA-Z]+)` accepts. */
  predicate IsImageLetters(mediaType: string)
  {
    && |mediaType| > 6
    && mediaType[..6] == "image/"
    && forall p | 6 <= p < |mediaType| :: IsLetter(mediaType[p])
  }

  /** The first payload symbol is a word character exactly when the first byte is
      below 248, that is when its top six bits are below 62. */
  predicate LeadsWithWordChar(data: seq<Base64.byte>)
  {
    |data| > 0 && data[0] < 248
  }

  /** A base64 symbol is a word character exactly when it is a letter or a digit. */
  lemma SymbolWordChar(v: Base64.sextet)
    ensures IsWordChar(Base64.Symbol(v)) <==> v < 62
  {
    Base64.SymbolInverse(v);
    Base64.SymbolIsAlphanumeric(v);
  }

  /** Where the pieces of a stored reference sit. */
  lemma DataUrlAt(mediaType: string, data: seq<Base64.byte>, q: nat)
    requires q < |DataUrl(mediaType, data)|
    ensures var url := DataUrl(mediaType, data);
      && (q < 5 ==> url[q] == "data:"[q])
      && (5 <= q < 5 + |mediaType| ==> url[q] == mediaType[q - 5])
      && (5 + |mediaType| <= q < 13 + |mediaType| ==> url[q] == Marker[q - 5 - |mediaType|])
      && (13 + |mediaType| <= q ==> url[q] == Base64.Encode(data)[q - 13 - |mediaType|])
  {
  }

  /** With no `;` in the media type, the only `;` of a stored reference is the one that
      opens `;base64,`. */
  lemma SemicolonAt(mediaType: string, data: seq<Base64.byte>, q: nat)
    requires ';' !in mediaType && q < |DataUrl(mediaType, data)|
    ensures DataUrl(mediaType, data)[q] == ';' <==> q == 5 + |mediaType|
  {
    var n := |mediaType|;
    DataUrlAt(mediaType, data, q);
    if 5 <= q < 5 + n {
      assert mediaType[q - 5] in mediaType;
    } else if 13 + n <= q {
      var r := Base64.Encode(data);
      assert Base64.IsSymbol(r[q - 13 - n]) || r[q - 13 - n] == '=';
    }
  }

  /** With no `:` in the media type, the only `:` of a stored reference is the one of
      `data:`. */
  lemma ColonAt(mediaType: string, data: seq<Base64.byte>, q: nat)
    requires ':' !in mediaType && q < |DataUrl(mediaType, data)|
    ensures DataUrl(mediaType, data)[q] == ':' <==> q == 4
  {
    var n := |mediaType|;
    DataUrlAt(mediaType, data, q);
    if 5 <= q < 5 + n {
      assert mediaType[q - 5] in mediaType;
    } else if 13 + n <= q {
      var r := Base64.Encode(data);
      assert Base64.IsSymbol(r[q - 13 - n]) || r[q - 13 - n] == '=';
    }
  }

  /** With no `;` in the media type, the only `;base64,` of a stored reference is the
      one the upload handler put after the media type. */
  lemma MarkerPosition(mediaType: string, data: seq<Base64.byte>, m: nat)
    requires ';' !in mediaType
    requires LiteralAt(DataUrl(mediaType, data), m, Marker)
    ensures m == 5 + |mediaType|
  {
    LiteralAtIndex(DataUrl(mediaType, data), m, Marker, 0);
    SemicolonAt(mediaType, data, m);
  }

  /** With no `;` or `:` in the media type, every match in a stored reference starts at
      its first character. */
  lemma MatchStartsAtZero(mediaType: string, data: seq<Base64.byte>, p: nat, k: nat)
    requires ';' !in mediaType && ':' !in mediaType
    requires Matches(DataUrl(mediaType, data), p, k)
    ensures p == 0
  {
    var url := DataUrl(mediaType, data);
    MatchHasColon(url, p, k);
    ColonAt(mediaType, data, p + 4);
  }

  /** A match holds the `:` of `data:` at its fifth character. */
  lemma MatchHasColon(s: string, p: nat, k: nat)
    requires Matches(s, p, k)
    ensures p + 4 < |s| && s[p + 4] == ':'
  {
    var m: nat, w: nat :| SplitAt(s, p, k, m, w);
    LiteralAtIndex(s, p, Prefix, 4);
  }

  /** A stored reference begins with `data:image/` exactly when its media type begins
      with `image/`. */
  lemma PrefixIff(mediaType: string, data: seq<Base64.byte>)
    requires ';' !in mediaType
    ensures LiteralAt(DataUrl(mediaType, data), 0, Prefix) <==> |mediaType| >= 6 && mediaType[..6] == "image/"
  {
    var url := DataUrl(mediaType, data);
    var n := |mediaType|;
    if n >= 6 {
      assert url[..11] == "data:" + mediaType[..6];
      assert mediaType[..6] == url[5..11];
    } else {
      // The `;` after a short media type falls inside the first eleven characters.
      SemicolonAt(mediaType, data, 5 + n);
      assert url[5 + n] == ';' != Prefix[5 + n];
      assert url[..11][5 + n] == url[5 + n];
    }
  }

  /** After `data:image/`, the pattern's letters run exactly to the `;` when everything
      after `image/` is a letter, and stop earlier otherwise. */
  lemma LetterRun(mediaType: string, data: seq<Base64.byte>)
    requires ';' !in mediaType && |mediaType| >= 6 && mediaType[..6] == "image/"
    ensures var e := Span(DataUrl(mediaType, data), |Prefix|, IsLetter);
      e <= 5 + |mediaType| && (e == 5 + |mediaType| <==> IsImageLetters(mediaType) || |mediaType| == 6)
  {
    var url := DataUrl(mediaType, data);
    var n := |mediaType|;
    SemicolonAt(mediaType, data, 5 + n);
    assert !IsLetter(url[5 + n]);
    var e := Span(url, |Prefix|, IsLetter);
    forall p | 6 <= p < n ensures IsLetter(url[5 + p]) <==> IsLetter(mediaType[p]) {
      DataUrlAt(mediaType, data, 5 + p);
    }
    if forall p | 6 <= p < n :: IsLetter(mediaType[p]) {
      forall p | |Prefix| <= p < 5 + n ensures IsLetter(url[p]) {
        DataUrlAt(mediaType, data, p);
      }
      SpanIs(url, |Prefix|, IsLetter, 5 + n);
    } else {
      var q :| 6 <= q < n && !IsLetter(mediaType[q]);
      assert !IsLetter(url[5 + q]);
    }
  }

  /** The pattern's word characters after `;base64,` start exactly when the first payload
      symbol is a letter or a digit. */
  lemma PayloadStart(mediaType: string, data: seq<Base64.byte>)
    ensures var url := DataUrl(mediaType, data);
      Span(url, 13 + |mediaType|, IsWordChar) > 13 + |mediaType| <==> LeadsWithWordChar(data)
  {
    var url := DataUrl(mediaType, data);
    var n := |mediaType|;
    SpanStarts(url, 13 + n, IsWordChar);
    if |data| > 0 {
      DataUrlAt(mediaType, data, 13 + n);
      Base64.EncodeFirstSymbol(data);
      SymbolWordChar(data[0] / 4);
      TopSixBits(data[0]);
    }
  }

  /** A greedy run is non-empty exactly when its first character is in the class. */
  lemma SpanStarts(s: string, k: nat, inClass: char -> bool)
    requires k <= |s|
    ensures Span(s, k, inClass) > k <==> k < |s| && inClass(s[k])
  {
  }

  lemma TopSixBits(b: Base64.byte)
    ensures b / 4 < 62 <==> b < 248
  {
  }

  /** A stored reference whose media type holds no `;` is matched at its first character
      exactly when the media type is `image/<letters>` and the first payload symbol is a
      letter or a digit. */
  lemma RecognisedAtStart(mediaType: string, data: seq<Base64.byte>)
    requires ';' !in mediaType
    ensures MatchAt(DataUrl(mediaType, data), 0).Some? <==> IsImageLetters(mediaType) && LeadsWithWordChar(data)
  {
    var url := DataUrl(mediaType, data);
    PrefixIff(mediaType, data);
    if |mediaType| >= 6 && mediaType[..6] == "image/" {
      LetterRun(mediaType, data);
      PayloadStart(mediaType, data);
      var m := Span(url, |Prefix|, IsLetter);
      if LiteralAt(url, m, Marker) {
        MarkerPosition(mediaType, data, m);
      }
    }
  }

  /** The number of `=` that pad the encoding of `data`. */
  function PadCount(data: seq<Base64.byte>): nat
  {
    if |data| % 3 == 0 then 0 else if |data| % 3 == 1 then 2 else 1
  }

  /** A padded string splits into symbols and the `=` its last characters show. */
  lemma PaddedSplit(r: string, pad: nat)
    requires Base64.IsPadded(r) && |r| >= 4 && pad <= 2
    requires pad == 0 ==> forall k | 0 <= k < |r| :: Base64.IsSymbol(r[k])
    requires pad >= 1 ==> r[|r| - 1] == '=' && Base64.IsSymbol(r[|r| - 1 - pad])
    requires pad == 2 ==> r[|r| - 2] == '='
    ensures forall p | 0 <= p < |r| - pad :: Base64.IsSymbol(r[p])
    ensures forall p | |r| - pad <= p < |r| :: r[p] == '='
  {
  }

  /** Before its padding an encoding holds symbols only; the padding is `=`. */
  lemma SymbolsThenPadding(data: seq<Base64.byte>)
    requires |data| > 0
    ensures PadCount(data) < |Base64.Encode(data)|
    ensures forall p | 0 <= p < |Base64.Encode(data)| - PadCount(data) :: Base64.IsSymbol(Base64.Encode(data)[p])
    ensures forall p | |Base64.Encode(data)| - PadCount(data) <= p < |Base64.Encode(data)| :: Base64.Encode(data)[p] == '='
  {
    var r := Base64.Encode(data);
    Base64.EncodePadding(data);
    assert |r| >= 4;
    if |data| % 3 == 1 {
      assert r[|r| - 2..][0] == r[|r| - 2] && r[|r| - 2..][1] == r[|r| - 1];
    } else if |data| % 3 == 2 {
      assert r[|r| - 1..][0] == r[|r| - 1];
    }
    PaddedSplit(r, PadCount(data));
  }

  /** An encoding without `+` or `/` is a run of word characters followed by its padding. */
  lemma PayloadShape(data: seq<Base64.byte>)
    requires |data| > 0
    requires forall c | c in Base64.Encode(data) :: c != '+' && c != '/'
    ensures PadCount(data) < |Base64.Encode(data)|
    ensures forall p | 0 <= p < |Base64.Encode(data)| - PadCount(data) :: IsWordChar(Base64.Encode(data)[p])
    ensures forall p | |Base64.Encode(data)| - PadCount(data) <= p < |Base64.Encode(data)| :: Base64.Encode(data)[p] == '='
  {
    var r := Base64.Encode(data);
    SymbolsThenPadding(data);
    forall p | 0 <= p < |r| - PadCount(data) ensures IsWordChar(r[p]) {
      assert r[p] in r;
    }
  }

  /** A payload of base64 without `+` or `/` at the end of a string: the pattern's
      `\w+={0,2}` takes all of it. */
  lemma WholePayloadMatched(url: string, start: nat, data: seq<Base64.byte>)
    requires |data| > 0 && start <= |url| && url[start..] == Base64.Encode(data)
    requires forall c | c in Base64.Encode(data) :: c != '+' && c != '/'
    ensures start + PadCount(data) < |url|
    ensures Span(url, start, IsWordChar) == |url| - PadCount(data)
    ensures PaddingEnd(url, |url| - PadCount(data)) == |url|
  {
    var r := Base64.Encode(data);
    PayloadShape(data);
    var x := |url| - PadCount(data);
    forall p | start <= p < |url| ensures url[p] == r[p - start] {
      assert url[start..][p - start] == url[p];
    }
    SpanIs(url, start, IsWordChar, x);
  }

  /** When the payload has no `+` or `/`, the match at the first character is the whole
      reference, which is then what the read handler sends as Content-Type. */
  lemma WholeReferenceMatched(mediaType: string, data: seq<Base64.byte>)
    requires IsImageLetters(mediaType) && |data| > 0
    requires forall c | c in Base64.Encode(data) :: c != '+' && c != '/'
    ensures var url := DataUrl(mediaType, data);
      Find(url) == Some(Found(0, |url|))
  {
    ReferenceHead(mediaType, data);
    ReferencePayload(mediaType, data);
    MatchWholeAtZero(DataUrl(mediaType, data), |mediaType|, PadCount(data));
  }

  /** On a reference with an `image/<letters>` type, the prefix, the letters and the
      marker end where the upload handler put them. */
  lemma ReferenceHead(mediaType: string, data: seq<Base64.byte>)
    requires IsImageLetters(mediaType)
    ensures var url := DataUrl(mediaType, data);
      && LiteralAt(url, 0, Prefix)
      && Span(url, |Prefix|, IsLetter) == 5 + |mediaType|
      && LiteralAt(url, 5 + |mediaType|, Marker)
  {
    PrefixIff(mediaType, data);
    LetterRun(mediaType, data);
  }

  /** On a payload without `+` or `/`, the word characters end where the padding starts
      and the padding runs to the end. */
  lemma ReferencePayload(mediaType: string, data: seq<Base64.byte>)
    requires |data| > 0
    requires forall c | c in Base64.Encode(data) :: c != '+' && c != '/'
    ensures var url := DataUrl(mediaType, data);
      && 13 + |mediaType| + PadCount(data) < |url|
      && Span(url, 13 + |mediaType|, IsWordChar) == |url| - PadCount(data)
      && PaddingEnd(url, |url| - PadCount(data)) == |url|
  {
    WholePayloadMatched(DataUrl(mediaType, data), 13 + |mediaType|, data);
  }

  /** MatchAt's greedy steps, given where each of them ends. */
  lemma MatchWholeAtZero(url: string, n: nat, pad: nat)
    requires LiteralAt(url, 0, Prefix) && 6 < n && 13 + n + pad < |url|
    requires Span(url, |Prefix|, IsLetter) == 5 + n && LiteralAt(url, 5 + n, Marker)
    requires Span(url, 13 + n, IsWordChar) == |url| - pad
    requires PaddingEnd(url, |url| - pad) == |url|
    ensures Find(url) == Some(Found(0, |url|))
  {
    assert MatchAt(url, 0) == Some(|url|);
  }

  /** With no `;` or `:` in the media type, the pattern finds something anywhere in a
      stored reference exactly when it finds it at the first character. */
  lemma FoundIff(mediaType: string, data: seq<Base64.byte>)
    requires ';' !in mediaType && ':' !in mediaType
    ensures (exists p: nat, k: nat :: Matches(DataUrl(mediaType, data), p, k)) <==>
      IsImageLetters(mediaType) && LeadsWithWordChar(data)
  {
    var url := DataUrl(mediaType, data);
    RecognisedAtStart(mediaType, data);
    if MatchAt(url, 0).Some? {
      assert Matches(url, 0, MatchAt(url, 0).value);
    }
    if exists p: nat, k: nat :: Matches(url, p, k) {
      var p: nat, k: nat :| Matches(url, p, k);
      MatchStartsAtZero(mediaType, data, p, k);
    }
  }

  /** An upload with a media type holding no `;` or `:`, followed by a read of the
      stored record: the reference is served exactly when the media type is
      `image/<letters>` and the first payload symbol is a letter or a digit; otherwise
      the read answers 500. For such media types an empty file and a JPEG (first byte
      0xFF) are therefore never served back. When served, the body and Content-Length
      are those of the whole reference, not of the decoded file. */
  lemma UploadThenGet(req: UploadRequest, id: Uuid)
    requires FirstFailure(req).None?
    requires ';' !in req.thumbnail.value.contentType && ':' !in req.thumbnail.value.contentType
    ensures var part := req.thumbnail.value;
      var url := DataUrl(part.contentType, part.contents.value);
      var resp := HandleThumbnailGet(GetRequest(Some(id), Lookup(Updated(req), NoError)));
      && UploadThumbnail(req).response == UploadOk(Updated(req))
      && Updated(req).thumbnailURL == Some(url)
      && (resp.Served? <==> IsImageLetters(part.contentType) && LeadsWithWordChar(part.contents.value))
      && (!resp.Served? ==> resp == GetError(500, "Data URL does not have encoded media type"))
      && (resp.Served? ==> resp.body == url && resp.contentLength == |url|)
  {
    var part := req.thumbnail.value;
    FoundIff(part.contentType, part.contents.value);
  }

  /** `image/<letters>` holds neither `;` nor `:`. */
  lemma ImageLettersPlain(mediaType: string)
    requires IsImageLetters(mediaType)
    ensures ';' !in mediaType && ':' !in mediaType
  {
    forall p | 0 <= p < |mediaType| ensures mediaType[p] != ';' && mediaType[p] != ':' {
      if p < 6 {
        assert mediaType[p] == mediaType[..6][p];
      }
    }
  }

  /** For any media type: an upload of an `image/<letters>` type whose first byte is
      below 248 is served back, with the whole reference as body and Content-Length. */
  lemma RecognisedIsServed(req: UploadRequest, id: Uuid)
    requires FirstFailure(req).None?
    requires IsImageLetters(req.thumbnail.value.contentType) && LeadsWithWordChar(req.thumbnail.value.contents.value)
    ensures var part := req.thumbnail.value;
      var url := DataUrl(part.contentType, part.contents.value);
      var resp := HandleThumbnailGet(GetRequest(Some(id), Lookup(Updated(req), NoError)));
      resp.Served? && resp.body == url && resp.contentLength == |url|
  {
    ImageLettersPlain(req.thumbnail.value.contentType);
    UploadThenGet(req, id);
  }

  /** A served reference with no `+` or `/` in its payload has the whole reference as its
      Content-Type. */
  lemma UploadThenGetWholeType(req: UploadRequest, id: Uuid)
    requires FirstFailure(req).None?
    requires IsImageLetters(req.thumbnail.value.contentType) && |req.thumbnail.value.contents.value| > 0
    requires forall c | c in Base64.Encode(req.thumbnail.value.contents.value) :: c != '+' && c != '/'
    ensures var url := DataUrl(req.thumbnail.value.contentType, req.thumbnail.value.contents.value);
      HandleThumbnailGet(GetRequest(Some(id), Lookup(Updated(req), NoError))) == Served(url, |url|, url)
  {
    var part := req.thumbnail.value;
    var url := DataUrl(part.contentType, part.contents.value);
    WholeReferenceMatched(part.contentType, part.contents.value);
    assert url[0..|url|] == url;
  }
}
