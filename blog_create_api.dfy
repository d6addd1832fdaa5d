/**
 * The post-creation endpoint (POST /api/blog/create): method check, title and
 * slug check, default content, and assembly of the new blog document with
 * its optional fields, followed by one create in the content store.
 */
module BlogCreateApi {
  import opened JsText
  import opened Content
  import opened Http

  /** The JSON body fields the handler reads. */
  datatype BlogRequestBody = BlogRequestBody(
    title: Option<string>,
    slug: Option<string>,
    excerpt: Option<string>,
    author: Option<string>,
    category: Option<string>,
    content: Option<seq<Block>>,
    mainImage: Option<ImageRef>)

  datatype SlugValue = SlugValue(typ: string, current: string)

  /** The document handed to the store; the four optional fields are absent unless set. */
  datatype BlogDoc = BlogDoc(
    typ: string,
    title: string,
    slug: SlugValue,
    content: seq<Block>,
    publishedAt: string,
    views: int,
    commentsEnabled: bool,
    excerpt: Option<string>,
    author: Option<string>,
    category: Option<string>,
    mainImage: Option<ImageRef>)

  /** What the store returns for a create: the document with its new id. */
  datatype CreatedBlog = CreatedBlog(id: string, doc: BlogDoc)

  const TitleAndSlugRequired: string := "Title and slug are required"
  const FailedToCreate: string := "Failed to create blog"
  const StarterText: string := "Start writing your blog content here..."

  /** An optional field is set only when the request's value is truthy. */
  function IfTruthy(s: Option<string>): (r: Option<string>)
    ensures r.Some? <==> Truthy(s)
    ensures r.Some? ==> r == s
  {
    if Truthy(s) then s else None
  }

  /** Whether the handler goes past its checks to the store. */
  predicate Accepted(req: Request<BlogRequestBody>) {
    req.httpMethod == "POST" && Truthy(req.body.title) && Truthy(req.body.slug)
  }

  /** What every document this endpoint writes satisfies. */
  predicate WellFormedBlogDoc(d: BlogDoc) {
    && d.typ == "blog"
    && d.title != ""
    && d.slug.typ == "slug" && d.slug.current != ""
    && d.views == 0
    && d.commentsEnabled
    && (d.excerpt.Some? ==> d.excerpt.value != "")
    && (d.author.Some? ==> d.author.value != "")
    && (d.category.Some? ==> d.category.value != "")
  }

  function NewBlogDoc(body: BlogRequestBody, now: string): BlogDoc
    requires Truthy(body.title) && Truthy(body.slug)
  {
    BlogDoc(
      "blog",
      body.title.value,
      SlugValue("slug", body.slug.value),
      if body.content.Some? then body.content.value else [TextBlock("normal", StarterText)],
      now,
      0,
      true,
      IfTruthy(body.excerpt),
      IfTruthy(body.author),
      IfTruthy(body.category),
      body.mainImage)
  }

  /**
   * The handler. `now` stands for the clock read of `new Date().toISOString()`;
   * `store` is what the content store answers if the handler calls it.
   */
  function HandleCreateBlog(req: Request<BlogRequestBody>, now: string, store: StoreReply): (h: Handled<CreatedBlog, BlogDoc>)
    // the method check comes first and writes nothing
    ensures req.httpMethod != "POST" ==> h.response == Response(405, Message(MethodNotAllowed)) && h.write == None
    // then the title/slug check, which writes nothing either
    ensures req.httpMethod == "POST" && !(Truthy(req.body.title) && Truthy(req.body.slug)) ==>
      h.response == Response(400, Message(TitleAndSlugRequired)) && h.write == None
    // an accepted request writes exactly one document
    ensures h.write.Some? <==> Accepted(req)
    ensures h.write.Some? ==> WellFormedBlogDoc(h.write.value)
    ensures h.write.Some? ==>
      var d := h.write.value;
      && d.title == req.body.title.value
      && d.slug.current == req.body.slug.value
      && d.publishedAt == now
      && d.mainImage == req.body.mainImage
      && d.excerpt == IfTruthy(req.body.excerpt)
      && d.author == IfTruthy(req.body.author)
      && d.category == IfTruthy(req.body.category)
      && (req.body.content.Some? ==> d.content == req.body.content.value)
      && (req.body.content.None? ==> d.content == [TextBlock("normal", StarterText)])
    // the store's answer decides between 200 and 500
    ensures h.write.Some? && store.Stored? ==> h.response == Response(200, Success(CreatedBlog(store.id, h.write.value)))
    ensures h.write.Some? && store.StoreFailed? ==> h.response == Response(500, ServerError(FailedToCreate, store.message))
    ensures h.response.status == 200 <==> h.write.Some? && store.Stored?
  {
    if req.httpMethod != "POST" then NotAllowed()
    else if !Truthy(req.body.title) || !Truthy(req.body.slug) then BadRequest(TitleAndSlugRequired)
    else
      var doc := NewBlogDoc(req.body, now);
      match store
      case Stored(id) => Handled(Response(200, Success(CreatedBlog(id, doc))), Some(doc))
      case StoreFailed(message) => Handled(Response(500, ServerError(FailedToCreate, message)), Some(doc))
  }

  /** A rejected request never reaches the store: its outcome does not depend on what the store would answer. */
  lemma RejectedIgnoresStore(req: Request<BlogRequestBody>, now: string, s1: StoreReply, s2: StoreReply)
    requires !Accepted(req)
    ensures HandleCreateBlog(req, now, s1) == HandleCreateBlog(req, now, s2)
  {
  }
}
