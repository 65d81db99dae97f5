/**
 * The read side (handler_get_thumbnail.go): the pattern that classifies a stored
 * thumbnail reference, and the handler that serves the reference back.
 *
 * A `string` here stands for a Go byte string; the types do not force each `char`
 * below 256 (see README, Left out).
 */
module ThumbnailGet {
  import opened Wrappers
  import opened Http
  import opened Videos

  // The regular expression `data:image\/([a-zA-Z]+);base64,\w+={0,2}` as its parts.

  const Prefix: string := "data:image/"
  const Marker: string := ";base64,"

  /** `[a-zA-Z]` */
  predicate IsLetter(c: char)
  {
    'a' <= c <= 'z' || 'A' <= c <= 'Z'
  }

  /** `\w` in Go's RE2 syntax: `[0-9A-Za-z_]` */
  predicate IsWordChar(c: char)
  {
    IsLetter(c) || '0' <= c <= '9' || c == '_'
  }

  /** The literal `lit` occurs in `s` at index `k`. */
  predicate LiteralAt(s: string, k: nat, lit: string)
  {
    k + |lit| <= |s| && s[k..k + |lit|] == lit
  }

  /** s[i..j] splits as Prefix, letters up to m, Marker at m, word characters up to w,
      and at most two `=` up to j: that is, s[i..j] is a string of the pattern. */
  ghost predicate SplitAt(s: string, i: nat, j: nat, m: nat, w: nat)
  {
    && j <= |s|
    && LiteralAt(s, i, Prefix)
    && i + |Prefix| < m
    && LiteralAt(s, m, Marker)
    && (forall p | i + |Prefix| <= p < m :: IsLetter(s[p]))
    && m + |Marker| < w <= j
    && (forall p | m + |Marker| <= p < w :: IsWordChar(s[p]))
    && j - w <= 2
    && (forall p | w <= p < j :: s[p] == '=')
  }

  /** The substring s[i..j] belongs to the language of the pattern. */
  ghost predicate Matches(s: string, i: nat, j: nat)
  {
    exists m: nat, w: nat :: SplitAt(s, i, j, m, w)
  }

  /** The end of the longest run of characters of a class starting at k
      (a greedy `+` or `*` over that class). */
  function Span(s: string, k: nat, inClass: char -> bool): (e: nat)
    requires k <= |s|
    ensures k <= e <= |s|
    ensures forall p | k <= p < e :: inClass(s[p])
    ensures e == |s| || !inClass(s[e])
    decreases |s| - k
  {
    if k < |s| && inClass(s[k]) then Span(s, k + 1, inClass) else k
  }

  /** The end of a greedy `={0,2}` starting at w. */
  function PaddingEnd(s: string, w: nat): (j: nat)
    requires w <= |s|
    ensures w <= j <= |s| && j - w <= 2
    ensures forall p | w <= p < j :: s[p] == '='
    ensures j == w + 2 || j == |s| || s[j] != '='
  {
    if w < |s| && s[w] == '=' then
      if w + 1 < |s| && s[w + 1] == '=' then w + 2 else w + 1
    else w
  }

  /** The character at the index of a literal's occurrence. */
  lemma LiteralAtIndex(s: string, k: nat, lit: string, p: nat)
    requires LiteralAt(s, k, lit) && p < |lit|
    ensures s[k + p] == lit[p]
  {
    assert s[k..k + |lit|][p] == s[k + p];
  }

  /** A greedy run ends exactly at the first character outside the class. */
  lemma {:induction false} SpanIs(s: string, k: nat, inClass: char -> bool, x: nat)
    requires k <= x <= |s|
    requires forall p | k <= p < x :: inClass(s[p])
    requires x == |s| || !inClass(s[x])
    ensures Span(s, k, inClass) == x
    decreases x - k
  {
    if k < x {
      SpanIs(s, k + 1, inClass, x);
    }
  }

  /** A greedy run reaches at least as far as any run of the class. */
  lemma {:induction false} SpanAtLeast(s: string, k: nat, inClass: char -> bool, x: nat)
    requires k <= x <= |s|
    requires forall p | k <= p < x :: inClass(s[p])
    ensures x <= Span(s, k, inClass)
    decreases x - k
  {
    if k < x {
      SpanAtLeast(s, k + 1, inClass, x);
    }
  }

  /** Any match at i has its letters end where the greedy letter run ends, its word
      characters end no later than the greedy word run, and ends no later than the
      greedy end: the pattern never needs to backtrack. */
  lemma MatchForced(s: string, i: nat, k: nat)
    requires Matches(s, i, k)
    ensures LiteralAt(s, i, Prefix) && i + |Prefix| <= |s|
    ensures var m := Span(s, i + |Prefix|, IsLetter);
      && m > i + |Prefix|
      && LiteralAt(s, m, Marker)
      && var w := Span(s, m + |Marker|, IsWordChar);
      && w > m + |Marker|
      && k <= PaddingEnd(s, w)
  {
    var m: nat, w: nat :| SplitAt(s, i, k, m, w);
    LettersForced(s, i, k, m, w);
    WordsForced(s, i, k, m, w);
  }

  /** In any split of a match, the letters end where the greedy letter run ends. */
  lemma LettersForced(s: string, i: nat, k: nat, m: nat, w: nat)
    requires SplitAt(s, i, k, m, w)
    ensures Span(s, i + |Prefix|, IsLetter) == m
  {
    LiteralAtIndex(s, m, Marker, 0);
    SpanIs(s, i + |Prefix|, IsLetter, m);
  }

  /** In any split of a match, the greedy word run is non-empty and the greedy padding
      after it reaches the end of the match. */
  lemma WordsForced(s: string, i: nat, k: nat, m: nat, w: nat)
    requires SplitAt(s, i, k, m, w)
    ensures var e := Span(s, m + |Marker|, IsWordChar);
      e > m + |Marker| && k <= PaddingEnd(s, e)
  {
    SpanAtLeast(s, m + |Marker|, IsWordChar, w);
    var e := Span(s, m + |Marker|, IsWordChar);
    if w < e {
      assert IsWordChar(s[w]);
      assert k == w;
    } else {
      PaddingBound(s, e, k);
    }
  }

  /** The greedy `={0,2}` reaches at least as far as any run of at most two `=`. */
  lemma PaddingBound(s: string, w: nat, k: nat)
    requires w <= k <= |s| && k - w <= 2
    requires forall p | w <= p < k :: s[p] == '='
    ensures k <= PaddingEnd(s, w)
  {
  }

  /** The leftmost-first match starting at i, as Go's regexp engine finds it: the end
      of the longest substring from i that belongs to the pattern. */
  function MatchAt(s: string, i: nat): (r: Option<nat>)
    requires i <= |s|
    ensures r.Some? ==> Matches(s, i, r.value)
    ensures r.Some? ==> forall k: nat | Matches(s, i, k) :: k <= r.value
    ensures r.None? ==> forall k: nat :: !Matches(s, i, k)
  {
    if !LiteralAt(s, i, Prefix) then
      MatchAtNone(s, i);
      None
    else
      var m := Span(s, i + |Prefix|, IsLetter);
      if m == i + |Prefix| || !LiteralAt(s, m, Marker) then
        MatchAtNone(s, i);
        None
      else
        var w := Span(s, m + |Marker|, IsWordChar);
        if w == m + |Marker| then
          MatchAtNone(s, i);
          None
        else
          var j := PaddingEnd(s, w);
          assert SplitAt(s, i, j, m, w);
          MatchAtLongest(s, i, j);
          Some(j)
  }

  /** When the greedy parts fail, nothing matches at i. */
  lemma MatchAtNone(s: string, i: nat)
    requires i <= |s|
    requires !LiteralAt(s, i, Prefix)
      || Span(s, i + |Prefix|, IsLetter) == i + |Prefix|
      || !LiteralAt(s, Span(s, i + |Prefix|, IsLetter), Marker)
      || (var m := Span(s, i + |Prefix|, IsLetter); Span(s, m + |Marker|, IsWordChar) == m + |Marker|)
    ensures forall k: nat :: !Matches(s, i, k)
  {
    forall k: nat | Matches(s, i, k) ensures false {
      MatchForced(s, i, k);
    }
  }

  /** The greedy end bounds every match at i. */
  lemma MatchAtLongest(s: string, i: nat, j: nat)
    requires LiteralAt(s, i, Prefix)
    requires var m := Span(s, i + |Prefix|, IsLetter);
      m <= |s| - |Marker| && j == PaddingEnd(s, Span(s, m + |Marker|, IsWordChar))
    ensures forall k: nat | Matches(s, i, k) :: k <= j
  {
    forall k: nat | Matches(s, i, k) ensures k <= j {
      MatchForced(s, i, k);
    }
  }

  /** A match lies inside the string. */
  lemma MatchWithin(s: string, i: nat, j: nat)
    ensures Matches(s, i, j) ==> i + |Prefix| < j <= |s|
  {
  }

  /** A match: the matched text is s[start..end]. */
  datatype Found = Found(start: nat, end: nat)

  /** The leftmost match starting at i or later. */
  function FindFrom(s: string, i: nat): (r: Option<Found>)
    requires i <= |s|
    ensures r.Some? ==> i <= r.value.start <= |s| && MatchAt(s, r.value.start) == Some(r.value.end)
    ensures forall p | i <= p <= |s| && (r.None? || p < r.value.start) :: MatchAt(s, p).None?
    decreases |s| - i
  {
    match MatchAt(s, i)
    case Some(j) => Some(Found(i, j))
    case None => if i == |s| then None else FindFrom(s, i + 1)
  }

  /** mediaTypeRe.Find: the leftmost, then longest, substring that belongs to the
      pattern, or none when no substring does. */
  function Find(s: string): (r: Option<Found>)
    ensures r.Some? ==> Matches(s, r.value.start, r.value.end)
    ensures r.Some? ==> forall k: nat | Matches(s, r.value.start, k) :: k <= r.value.end
    ensures r.Some? ==> forall p: nat, k: nat | p < r.value.start :: !Matches(s, p, k)
    ensures r.None? ==> forall p: nat, k: nat :: !Matches(s, p, k)
  {
    var r := FindFrom(s, 0);
    forall p: nat, k: nat | r.None? || p < r.value.start ensures !Matches(s, p, k) {
      if p <= |s| {
        assert MatchAt(s, p).None?;
      } else {
        MatchWithin(s, p, k);
      }
    }
    r
  }

  /** What a match looks like: it begins with `data:image/`, holds `;base64,`
      followed by at least one word character, and contains no `+` or `/` after
      the prefix, so a base64 payload is cut at its first `+` or `/`. */
  lemma MatchedText(s: string, i: nat, j: nat)
    requires Matches(s, i, j)
    ensures j - i >= |Prefix| + 1 + |Marker| + 1
    ensures s[i..j][..|Prefix|] == Prefix
    ensures forall p | i + |Prefix| <= p < j :: s[p] != '+' && s[p] != '/'
  {
    var m: nat, w: nat :| SplitAt(s, i, j, m, w);
    forall p | i + |Prefix| <= p < j ensures s[p] != '+' && s[p] != '/' {
      if m <= p < m + |Marker| {
        LiteralAtIndex(s, m, Marker, p - m);
      }
    }
  }

  /** The lookup's answer to the handler: GetVideo's record and error. */
  datatype GetRequest = GetRequest(videoID: Option<Uuid>, lookup: Lookup)

  /** An error response, or the three things the handler writes on success. */
  datatype GetResponse =
    | GetError(status: int, message: string)
    | Served(contentType: string, contentLength: nat, body: string)
  {
    /** Go writes 200 implicitly when the body is written without a status. */
    function Status(): int
    {
      if GetError? then status else StatusOK
    }
  }

  /** handlerThumbnailGet: bad ID 400, any lookup error or a missing reference 404,
      a reference the pattern does not find 500; otherwise Content-Type is the whole
      matched text, Content-Length the byte length of the reference, and the body the
      reference text itself. */
  function HandleThumbnailGet(req: GetRequest): (resp: GetResponse)
    ensures req.videoID.None? ==> resp == GetError(StatusBadRequest, "Invalid video ID")
    ensures req.videoID.Some? && req.lookup.err != NoError ==>
      resp == GetError(StatusNotFound, "Thumbnail not found")
    ensures req.videoID.Some? && req.lookup.err == NoError && req.lookup.video.thumbnailURL.None? ==>
      resp == GetError(StatusNotFound, "Video does not have thumbnail")
    ensures resp.Served? <==>
      && req.videoID.Some? && req.lookup.err == NoError && req.lookup.video.thumbnailURL.Some?
      && exists p: nat, k: nat :: Matches(req.lookup.video.thumbnailURL.value, p, k)
    ensures (req.videoID.Some? && req.lookup.err == NoError && req.lookup.video.thumbnailURL.Some?
      && !resp.Served?) ==> resp == GetError(StatusInternalServerError, "Data URL does not have encoded media type")
    ensures resp.Served? ==>
      var url := req.lookup.video.thumbnailURL.value;
      && resp.body == url
      && resp.contentLength == |resp.body|
      && exists p: nat, k: nat :: p <= k <= |url| && resp.contentType == url[p..k] && Matches(url, p, k)
    ensures resp.Served? ==>
      var url := req.lookup.video.thumbnailURL.value;
      Find(url).Some? && resp.contentType == url[Find(url).value.start..Find(url).value.end]
  {
    if req.videoID.None? then GetError(StatusBadRequest, "Invalid video ID")
    else if req.lookup.err != NoError then GetError(StatusNotFound, "Thumbnail not found")
    else if req.lookup.video.thumbnailURL.None? then GetError(StatusNotFound, "Video does not have thumbnail")
    else
      var url := req.lookup.video.thumbnailURL.value;
      match Find(url)
      case None => GetError(StatusInternalServerError, "Data URL does not have encoded media type")
      case Some(f) =>
        assert Matches(url, f.start, f.end);
        Served(url[f.start..f.end], |url|, url)
  }
}
