/**
 * The comment endpoint (POST /api/comments): required-field check, rating
 * range check under JavaScript's comparison rules, and one create in the
 * content store.
 */
module CommentsApi {
  import opened JsText
  import opened Http

  /**
   * The values a JSON body can give `rating` that the range check can tell
   * apart: absent, `null`, a number that is not a number (`NaN`), or a number.
   */
  datatype JsNumber = Undefined | Null | NaN | Number(value: real)

  /** JavaScript's numeric conversion for a relational comparison: `null` is 0, `undefined` and `NaN` have no value. */
  function ToNumeric(x: JsNumber): (r: Option<real>)
    ensures x.Number? ==> r == Some(x.value)
    ensures x.Null? ==> r == Some(0.0)
    ensures x.Undefined? || x.NaN? ==> r.None?
  {
    match x
    case Number(v) => Some(v)
    case Null => Some(0.0)
    case _ => None
  }

  /** `x < c`: false whenever a side has no numeric value. */
  predicate LessThan(x: JsNumber, c: real) {
    var n := ToNumeric(x);
    n.Some? && n.value < c
  }

  /** `x > c`, by the same rule. */
  predicate GreaterThan(x: JsNumber, c: real) {
    var n := ToNumeric(x);
    n.Some? && n.value > c
  }

  datatype CommentRequestBody = CommentRequestBody(
    blogId: Option<string>,
    name: Option<string>,
    email: Option<string>,
    comment: Option<string>,
    rating: JsNumber)

  datatype Reference = Reference(typ: string, ref: string)

  datatype CommentDoc = CommentDoc(
    typ: string,
    blog: Reference,
    name: string,
    email: string,
    comment: string,
    rating: JsNumber,
    createdAt: string)

  /** What the store returns for a create: the comment with its new id. */
  datatype CreatedComment = CreatedComment(id: string, doc: CommentDoc)

  const MissingFields: string := "Missing required fields"
  const RatingOutOfRange: string := "Rating must be between 1 and 5"
  const FailedToCreateComment: string := "Failed to create comment"

  predicate HasRequiredFields(body: CommentRequestBody) {
    Truthy(body.blogId) && Truthy(body.name) && Truthy(body.email) && Truthy(body.comment)
  }

  /** The range check: below 1 or above 5 under the comparison rules above. */
  predicate RatingRejected(rating: JsNumber) {
    LessThan(rating, 1.0) || GreaterThan(rating, 5.0)
  }

  /** Whether the handler goes past its checks to the store. */
  predicate CommentAccepted(req: Request<CommentRequestBody>) {
    req.httpMethod == "POST" && HasRequiredFields(req.body) && !RatingRejected(req.body.rating)
  }

  function NewComment(body: CommentRequestBody, now: string): CommentDoc
    requires HasRequiredFields(body)
  {
    CommentDoc("comment", Reference("reference", body.blogId.value),
      body.name.value, body.email.value, body.comment.value, body.rating, now)
  }

  /**
   * The handler. `now` stands for the clock read of `new Date().toISOString()`;
   * `store` is what the content store answers if the handler calls it.
   */
  function HandleComment(req: Request<CommentRequestBody>, now: string, store: StoreReply): (h: Handled<CreatedComment, CommentDoc>)
    ensures req.httpMethod != "POST" ==> h.response == Response(405, Message(MethodNotAllowed)) && h.write == None
    // the field check comes before the rating check
    ensures req.httpMethod == "POST" && !HasRequiredFields(req.body) ==>
      h.response == Response(400, Message(MissingFields)) && h.write == None
    ensures req.httpMethod == "POST" && HasRequiredFields(req.body) && RatingRejected(req.body.rating) ==>
      h.response == Response(400, Message(RatingOutOfRange)) && h.write == None
    ensures h.write.Some? <==> CommentAccepted(req)
    ensures h.write.Some? ==>
      var d := h.write.value;
      && d.typ == "comment"
      && d.blog == Reference("reference", req.body.blogId.value)
      && d.name == req.body.name.value && d.name != ""
      && d.email == req.body.email.value && d.email != ""
      && d.comment == req.body.comment.value && d.comment != ""
      && d.rating == req.body.rating
      && d.createdAt == now
    ensures h.write.Some? && store.Stored? ==> h.response == Response(200, Success(CreatedComment(store.id, h.write.value)))
    ensures h.write.Some? && store.StoreFailed? ==> h.response == Response(500, ServerError(FailedToCreateComment, store.message))
    ensures h.response.status == 200 <==> h.write.Some? && store.Stored?
  {
    if req.httpMethod != "POST" then NotAllowed()
    else if !HasRequiredFields(req.body) then BadRequest(MissingFields)
    else if RatingRejected(req.body.rating) then BadRequest(RatingOutOfRange)
    else
      var doc := NewComment(req.body, now);
      match store
      case Stored(id) => Handled(Response(200, Success(CreatedComment(id, doc))), Some(doc))
      case StoreFailed(message) => Handled(Response(500, ServerError(FailedToCreateComment, message)), Some(doc))
  }

  /**
   * The rating check lets through a number from 1 to 5 and an absent or
   * `NaN` rating, and turns away `null` (compared as 0) and every other number.
   */
  lemma RatingAcceptedIff(rating: JsNumber)
    ensures !RatingRejected(rating) <==>
      rating.Undefined? || rating.NaN? || (rating.Number? && 1.0 <= rating.value <= 5.0)
    ensures RatingRejected(Null)
  {
  }

  /** A stored comment always carries a rating in range, unless it carries none. */
  lemma StoredRatingInRange(req: Request<CommentRequestBody>, now: string, store: StoreReply)
    requires HandleComment(req, now, store).write.Some?
    ensures var r := HandleComment(req, now, store).write.value.rating;
      r.Undefined? || r.NaN? || (r.Number? && 1.0 <= r.value <= 5.0)
  {
    RatingAcceptedIff(req.body.rating);
  }

  /** A rejected request never reaches the store: its outcome does not depend on what the store would answer. */
  lemma CommentRejectedIgnoresStore(req: Request<CommentRequestBody>, now: string, s1: StoreReply, s2: StoreReply)
    requires !CommentAccepted(req)
    ensures HandleComment(req, now, s1) == HandleComment(req, now, s2)
  {
  }
}
