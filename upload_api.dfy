/**
 * The image upload endpoint (POST /api/upload-image): method check, the
 * image-data check, removal of the data-URL header, the upload with its
 * default file name and content type, and the URL it answers with.
 */
module UploadApi {
  import opened JsText
  import opened Http

  // ---------------------------------------------------------------------------
  // The data-URL header

  const DataImage: string := "data:image/"
  const Base64Marker: string := ";base64,"

  /** The regular-expression class `\w`: ASCII letters, digits and underscore. */
  predicate IsWordChar(c: char) {
    'A' <= c <= 'Z' || 'a' <= c <= 'z' || '0' <= c <= '9' || c == '_'
  }

  /** The length of the run of word characters `s` starts with. */
  function WordRun(s: string): (n: nat)
    ensures n <= |s|
    ensures forall i :: 0 <= i < n ==> IsWordChar(s[i])
    ensures n < |s| ==> !IsWordChar(s[n])
  {
    if s != [] && IsWordChar(s[0]) then 1 + WordRun(s[1..]) else 0
  }

  /**
   * Removes a leading `data:image/<subtype>;base64,` whose subtype is one or
   * more word characters. Since `;` is not a word character, the subtype the
   * pattern can match is exactly the longest run of word characters.
   */
  function StripDataUrlPrefix(s: string): (r: string)
    ensures |r| <= |s|
    ensures r == s[|s| - |r|..]
  {
    if |s| >= |DataImage| && s[..|DataImage|] == DataImage then
      var n := WordRun(s[|DataImage|..]);
      var end := |DataImage| + n + |Base64Marker|;
      if n >= 1 && |s| >= end && s[|DataImage| + n..end] == Base64Marker then s[end..] else s
    else s
  }

  predicate AllWordChars(w: string) {
    forall i :: 0 <= i < |w| ==> IsWordChar(w[i])
  }

  /** `s` starts with the header for subtype `w`: `data:image/`, then `w`, then `;base64,`. */
  predicate HeaderWith(s: string, w: string) {
    && w != [] && AllWordChars(w)
    && |DataImage| + |w| + |Base64Marker| <= |s|
    && s[..|DataImage|] == DataImage
    && s[|DataImage|..|DataImage| + |w|] == w
    && s[|DataImage| + |w|..|DataImage| + |w| + |Base64Marker|] == Base64Marker
  }

  lemma WordRunOfWord(w: string, rest: string)
    requires AllWordChars(w) && rest != [] && !IsWordChar(rest[0])
    ensures WordRun(w + rest) == |w|
    decreases |w|
  {
    if w != [] {
      assert (w + rest)[1..] == w[1..] + rest;
      WordRunOfWord(w[1..], rest);
    } else {
      assert w + rest == rest;
    }
  }

  /** The header comes off whatever follows it: `strip("data:image/" + w + ";base64," + p) == p`. */
  lemma StripRemovesHeader(w: string, payload: string)
    requires w != [] && AllWordChars(w)
    ensures StripDataUrlPrefix(DataImage + w + Base64Marker + payload) == payload
  {
    var s := DataImage + w + Base64Marker + payload;
    assert s[..|DataImage|] == DataImage;
    assert s[|DataImage|..] == w + (Base64Marker + payload);
    WordRunOfWord(w, Base64Marker + payload);
    var end := |DataImage| + |w| + |Base64Marker|;
    assert s[|DataImage| + |w|..end] == Base64Marker;
    assert s[end..] == payload;
  }

  /** When the data changes, what came off is a header. */
  lemma ChangedMeansHeader(s: string)
    requires StripDataUrlPrefix(s) != s
    ensures HeaderWith(s, s[|DataImage|..|DataImage| + WordRun(s[|DataImage|..])])
  {
    var rest := s[|DataImage|..];
    var n := WordRun(rest);
    var w := rest[..n];
    assert w == s[|DataImage|..|DataImage| + n];
    assert AllWordChars(w) by {
      forall i | 0 <= i < |w| ensures IsWordChar(w[i]) { assert w[i] == rest[i]; }
    }
  }

  /** A header always comes off, so the data changes. */
  lemma HeaderMeansChanged(s: string, w: string)
    requires HeaderWith(s, w)
    ensures StripDataUrlPrefix(s) != s
  {
    var k := |DataImage| + |w| + |Base64Marker|;
    assert s == s[..|DataImage|] + s[|DataImage|..|DataImage| + |w|] + s[|DataImage| + |w|..k] + s[k..];
    StripRemovesHeader(w, s[k..]);
  }

  /** The data changes exactly when it starts with a header of some word-character subtype. */
  lemma StripChangesIff(s: string)
    ensures StripDataUrlPrefix(s) != s <==> exists w :: HeaderWith(s, w)
  {
    if StripDataUrlPrefix(s) != s {
      ChangedMeansHeader(s);
    }
    if exists w :: HeaderWith(s, w) {
      var w :| HeaderWith(s, w);
      HeaderMeansChanged(s, w);
    }
  }

  /** Only one header is removed: a second one behind it stays. */
  lemma StripRemovesOneHeader(w: string, payload: string)
    requires w != [] && AllWordChars(w)
    ensures StripDataUrlPrefix(DataImage + w + Base64Marker + (DataImage + w + Base64Marker + payload))
      == DataImage + w + Base64Marker + payload
  {
    StripRemovesHeader(w, DataImage + w + Base64Marker + payload);
  }

  /**
   * A subtype with a character outside `\w` before the marker, as the `+` of
   * `svg+xml`, does not match: that data URL is kept whole.
   */
  lemma NonWordSubtypeIsKept(w: string, c: char, rest: string)
    requires AllWordChars(w) && !IsWordChar(c) && c != ';'
    ensures StripDataUrlPrefix(DataImage + w + [c] + rest) == DataImage + w + [c] + rest
  {
    var s := DataImage + w + [c] + rest;
    assert s[..|DataImage|] == DataImage;
    assert s[|DataImage|..] == w + ([c] + rest);
    WordRunOfWord(w, [c] + rest);
    var end := |DataImage| + |w| + |Base64Marker|;
    if |s| >= end {
      assert s[|DataImage| + |w|..end][0] == c;
      assert Base64Marker[0] == ';';
    }
  }

  // ---------------------------------------------------------------------------
  // The handler

  datatype UploadRequestBody = UploadRequestBody(imageData: Option<string>, filename: Option<string>, mimetype: Option<string>)

  /** The upload handed to the asset store: the base64 payload and its options. */
  datatype UploadCall = UploadCall(data: string, filename: string, contentType: string)

  /**
   * What the asset store answers: the asset's id, the URL the image-URL
   * builder makes for it at width 800, and the asset's own URL; or the error.
   */
  datatype UploadReply = Uploaded(assetId: string, builtUrl: string, assetUrl: string) | UploadFailed(message: string)

  datatype UploadedImage = UploadedImage(imageUrl: string, assetId: string)

  const NoImageData: string := "No image data provided"
  const FailedToUpload: string := "Failed to upload image"
  const DefaultFilename: string := "image.jpg"
  const DefaultContentType: string := "image/jpeg"

  predicate UploadAccepted(req: Request<UploadRequestBody>) {
    req.httpMethod == "POST" && Truthy(req.body.imageData)
  }

  function HandleUpload(req: Request<UploadRequestBody>, reply: UploadReply): (h: Handled<UploadedImage, UploadCall>)
    ensures req.httpMethod != "POST" ==> h.response == Response(405, Message(MethodNotAllowed)) && h.write == None
    ensures req.httpMethod == "POST" && !Truthy(req.body.imageData) ==>
      h.response == Response(400, Message(NoImageData)) && h.write == None
    ensures h.write.Some? <==> UploadAccepted(req)
    ensures h.write.Some? ==>
      var c := h.write.value;
      && c.data == StripDataUrlPrefix(req.body.imageData.value)
      && c.filename == OrElse(req.body.filename, DefaultFilename) && c.filename != ""
      && c.contentType == OrElse(req.body.mimetype, DefaultContentType) && c.contentType != ""
    // the built URL, falling back to the asset's own URL when it is empty
    ensures h.write.Some? && reply.Uploaded? ==>
      h.response == Response(200, Success(UploadedImage(
        if reply.builtUrl != "" then reply.builtUrl else reply.assetUrl, reply.assetId)))
    ensures h.write.Some? && reply.UploadFailed? ==> h.response == Response(500, ServerError(FailedToUpload, reply.message))
    ensures h.response.status == 200 <==> h.write.Some? && reply.Uploaded?
  {
    if req.httpMethod != "POST" then NotAllowed()
    else if !Truthy(req.body.imageData) then BadRequest(NoImageData)
    else
      var call := UploadCall(
        StripDataUrlPrefix(req.body.imageData.value),
        OrElse(req.body.filename, DefaultFilename),
        OrElse(req.body.mimetype, DefaultContentType));
      match reply
      case Uploaded(id, built, own) =>
        Handled(Response(200, Success(UploadedImage(if built != "" then built else own, id))), Some(call))
      case UploadFailed(message) => Handled(Response(500, ServerError(FailedToUpload, message)), Some(call))
  }

  /** A data URL sent by the editor reaches the store as its bare base64 payload. */
  lemma UploadSendsPayload(w: string, payload: string, filename: Option<string>, mimetype: Option<string>, reply: UploadReply)
    requires w != [] && AllWordChars(w)
    ensures var h := HandleUpload(Request("POST", UploadRequestBody(Some(DataImage + w + Base64Marker + payload), filename, mimetype)), reply);
      h.write.Some? && h.write.value.data == payload
  {
    StripRemovesHeader(w, payload);
  }

  /** A successful upload answers with a URL whenever the store gives one. */
  lemma UploadedUrlIsSet(req: Request<UploadRequestBody>, reply: UploadReply)
    requires UploadAccepted(req) && reply.Uploaded? && (reply.builtUrl != "" || reply.assetUrl != "")
    ensures var b := HandleUpload(req, reply).response.body;
      b.Success? && b.payload.imageUrl != ""
  {
  }

  /** A rejected request never reaches the store: its outcome does not depend on what the store would answer. */
  lemma UploadRejectedIgnoresStore(req: Request<UploadRequestBody>, r1: UploadReply, r2: UploadReply)
    requires !UploadAccepted(req)
    ensures HandleUpload(req, r1) == HandleUpload(req, r2)
  {
  }
}
