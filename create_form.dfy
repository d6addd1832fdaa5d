/**
 * The post editor's form logic: updating a field as the user types (with
 * the slug re-derived from the title), converting the plain-text body into
 * Portable Text paragraphs, and assembling the body of the create request.
 */
module CreateForm {
  import opened JsText
  import opened Seqs
  import opened Content
  import opened Http
  import Slug
  import BlogCreateApi

  /** The `name` attributes of the form's six controls. */
  datatype Field = Title | SlugField | Excerpt | Author | Category | Body

  datatype FormData = FormData(title: string, slug: string, excerpt: string, author: string, content: string, category: string)

  /** The form's initial state: every field empty except the category, `tech`. */
  const InitialForm: FormData := FormData("", "", "", "", "", "tech")

  function Get(f: FormData, field: Field): string {
    match field
    case Title => f.title
    case SlugField => f.slug
    case Excerpt => f.excerpt
    case Author => f.author
    case Category => f.category
    case Body => f.content
  }

  /** A copy of the form with one field replaced. */
  function Set(f: FormData, field: Field, value: string): FormData {
    match field
    case Title => f.(title := value)
    case SlugField => f.(slug := value)
    case Excerpt => f.(excerpt := value)
    case Author => f.(author := value)
    case Category => f.(category := value)
    case Body => f.(content := value)
  }

  /**
   * `handleInputChange`: the named field takes the new value, and a change
   * of the title also overwrites the slug with the slug derived from it.
   */
  function InputChange(f: FormData, field: Field, value: string): (r: FormData)
    ensures Get(r, field) == value
    ensures field == Title ==> r.slug == Slug.Slugify(value) && Slug.WellFormedSlug(r.slug)
    ensures forall g :: g != field && !(field == Title && g == SlugField) ==> Get(r, g) == Get(f, g)
  {
    var r := Set(f, field, value);
    if field == Title then
      r.(slug := Slug.Slugify(value))
    else r
  }

  // ---------------------------------------------------------------------------
  // Plain text to Portable Text

  const ParagraphBreak: string := "\n\n"

  /** A separator starts at index `i` of `s`. */
  predicate BreakAt(s: string, i: int) {
    0 <= i && i + 1 < |s| && s[i] == '\n' && s[i + 1] == '\n'
  }

  predicate NoParagraphBreak(p: string) {
    forall i :: 0 <= i < |p| ==> !BreakAt(p, i)
  }

  /** Where the first separator of `s` starts, or `|s|` when there is none. */
  function FirstBreak(s: string): (k: nat)
    ensures k <= |s|
    ensures k < |s| ==> k + 2 <= |s| && s[k..k + 2] == ParagraphBreak
    ensures forall i :: 0 <= i < k ==> !BreakAt(s, i)
    decreases |s|
  {
    if |s| < 2 then |s|
    else if BreakAt(s, 0) then 0
    else
      var k := FirstBreak(s[1..]);
      assert forall i :: 1 <= i < k + 1 ==> (BreakAt(s, i) <==> BreakAt(s[1..], i - 1));
      1 + k
  }

  /** Splitting at the separator: the text up to its leftmost occurrence, then the split of what follows it. */
  function SplitParagraphs(s: string): (r: seq<string>)
    ensures |r| >= 1
    ensures |r[0]| <= |s| && r[0] == s[..|r[0]|]
    ensures |r| == 1 ==> r[0] == s
    ensures |r| > 1 ==> |r[0]| + 2 <= |s| && s[|r[0]|..|r[0]| + 2] == ParagraphBreak
    decreases |s|
  {
    var k := FirstBreak(s);
    if k == |s| then [s] else [s[..k]] + SplitParagraphs(s[k + 2..])
  }

  /** `pieces.join('\n\n')`. */
  function JoinParagraphs(ps: seq<string>): string {
    if ps == [] then "" else if |ps| == 1 then ps[0] else ps[0] + ParagraphBreak + JoinParagraphs(ps[1..])
  }

  lemma JoinCons(p: string, ps: seq<string>)
    requires ps != []
    ensures JoinParagraphs([p] + ps) == p + ParagraphBreak + JoinParagraphs(ps)
  {
    assert ([p] + ps)[0] == p && ([p] + ps)[1..] == ps;
  }

  /** A text is the part before a cut, two characters, and the rest. */
  lemma CutAround(s: string, k: nat)
    requires k + 2 <= |s|
    ensures s == s[..k] + s[k..k + 2] + s[k + 2..]
  {
  }

  lemma {:induction false} SplitJoinRoundTrip(s: string)
    ensures JoinParagraphs(SplitParagraphs(s)) == s
    decreases |s|
  {
    var k := FirstBreak(s);
    if k < |s| {
      var t := s[k + 2..];
      SplitJoinRoundTrip(t);
      assert SplitParagraphs(s) == [s[..k]] + SplitParagraphs(t);
      JoinCons(s[..k], SplitParagraphs(t));
      CutAround(s, k);
    }
  }

  /** No piece of `split('\n\n')` holds `\n\n`. */
  lemma {:induction false} SplitPiecesHaveNoBreak(s: string)
    ensures forall k :: 0 <= k < |SplitParagraphs(s)| ==> NoParagraphBreak(SplitParagraphs(s)[k])
    decreases |s|
  {
    var r := SplitParagraphs(s);
    var k := FirstBreak(s);
    if k < |s| {
      SplitPiecesHaveNoBreak(s[k + 2..]);
      var p := s[..k];
      assert r[0] == p && r[1..] == SplitParagraphs(s[k + 2..]);
      assert NoParagraphBreak(p) by {
        forall i | 0 <= i < |p| ensures !BreakAt(p, i) {
          assert !BreakAt(s, i) && p[i] == s[i];
          if i + 1 < |p| {
            assert p[i + 1] == s[i + 1];
          }
        }
      }
      forall j | 0 <= j < |r| ensures NoParagraphBreak(r[j]) {
        if j > 0 { assert r[j] == r[1..][j - 1]; }
      }
    }
  }

  /** No piece but the last ends with `\n`: each cut is made at the leftmost `\n\n`. */
  lemma {:induction false} SplitCutsLeftmost(s: string)
    ensures forall k :: 0 <= k < |SplitParagraphs(s)| - 1 ==> !EndsWithNewline(SplitParagraphs(s)[k])
    decreases |s|
  {
    var r := SplitParagraphs(s);
    var k := FirstBreak(s);
    if k < |s| {
      SplitCutsLeftmost(s[k + 2..]);
      assert r[0] == s[..k] && r[1..] == SplitParagraphs(s[k + 2..]);
      if k > 0 {
        assert s[k] == '\n' && !BreakAt(s, k - 1);
        assert s[..k][k - 1] == s[k - 1];
      }
      forall j | 0 <= j < |r| - 1 ensures !EndsWithNewline(r[j]) {
        if j > 0 { assert r[j] == r[1..][j - 1]; }
      }
    }
  }

  predicate EndsWithNewline(p: string) {
    p != [] && p[|p| - 1] == '\n'
  }

  /**
   * The three facts that pin `split` down: the pieces joined with `\n\n` give
   * the text back, no piece holds `\n\n`, and no piece but the last ends with
   * `\n`.
   */
  lemma SplitParagraphsSpec(s: string)
    ensures JoinParagraphs(SplitParagraphs(s)) == s
    ensures forall k :: 0 <= k < |SplitParagraphs(s)| ==> NoParagraphBreak(SplitParagraphs(s)[k])
    ensures forall k :: 0 <= k < |SplitParagraphs(s)| - 1 ==> !EndsWithNewline(SplitParagraphs(s)[k])
  {
    SplitJoinRoundTrip(s);
    SplitPiecesHaveNoBreak(s);
    SplitCutsLeftmost(s);
  }

  /** A paragraph is kept when its trimmed text is not empty. */
  function IsKeptParagraph(p: string): bool {
    Trim(p) != ""
  }

  /** A kept paragraph becomes a `normal` block holding one span of its trimmed text. */
  function ParagraphBlock(p: string): Block {
    TextBlock("normal", Trim(p))
  }

  const DefaultBodyText: string := "Blog content goes here..."

  /** The block the editor sends when no paragraph survives. */
  const DefaultBlock: Block := TextBlock("normal", DefaultBodyText)

  /** A `normal` block with one non-empty span, the only kind the conversion makes. */
  predicate IsParagraphBlock(b: Block) {
    && b.typ == "block" && b.style == Some("normal")
    && b.children.Some? && |b.children.value| == 1
    && b.children.value[0].typ == "span"
    && b.children.value[0].text.Some? && b.children.value[0].text.value != ""
  }

  /** Every block of `bs` is a paragraph block. */
  predicate AllParagraphBlocks(bs: seq<Block>) {
    forall k :: 0 <= k < |bs| ==> IsParagraphBlock(bs[k])
  }

  lemma DefaultBlockIsParagraphBlock()
    ensures AllParagraphBlocks([DefaultBlock])
  {
    assert DefaultBodyText[0] == 'B';
    assert IsParagraphBlock(DefaultBlock);
  }

  function ContentBlocks(text: string): seq<Block> {
    Map(ParagraphBlock, Keep(IsKeptParagraph, SplitParagraphs(text)))
  }

  lemma ContentBlocksShape(text: string)
    ensures |ContentBlocks(text)| == Count(IsKeptParagraph, SplitParagraphs(text))
    ensures AllParagraphBlocks(ContentBlocks(text))
  {
    var kept := Keep(IsKeptParagraph, SplitParagraphs(text));
    forall k | 0 <= k < |kept| ensures IsParagraphBlock(ContentBlocks(text)[k]) {
      assert IsKeptParagraph(kept[k]);
      assert ContentBlocks(text)[k] == ParagraphBlock(kept[k]);
    }
  }

  /** The body's conversion to Portable Text, with the default block when no paragraph survives. */
  function ToPortableText(text: string): (r: seq<Block>)
    ensures |r| >= 1
    ensures AllParagraphBlocks(r)
    ensures Count(IsKeptParagraph, SplitParagraphs(text)) == 0 ==> r == [DefaultBlock]
    ensures Count(IsKeptParagraph, SplitParagraphs(text)) > 0 ==> |r| == Count(IsKeptParagraph, SplitParagraphs(text))
  {
    var blocks := ContentBlocks(text);
    if |blocks| > 0 then
      ContentBlocksShape(text);
      blocks
    else
      DefaultBlockIsParagraphBlock();
      ContentBlocksShape(text);
      [DefaultBlock]
  }

  /**
   * Each paragraph whose trim is non-empty becomes a block carrying the
   * trimmed text, placed after the blocks of the surviving paragraphs before it.
   */
  lemma ParagraphBecomesBlock(text: string, i: nat)
    requires i < |SplitParagraphs(text)| && Trim(SplitParagraphs(text)[i]) != ""
    ensures var pieces := SplitParagraphs(text);
      var k := Count(IsKeptParagraph, pieces[..i]);
      k < |ToPortableText(text)| && ToPortableText(text)[k] == TextBlock("normal", Trim(pieces[i]))
  {
    var pieces := SplitParagraphs(text);
    KeepAt(IsKeptParagraph, pieces, i);
    ContentBlocksShape(text);
  }

  predicate BlockFromParagraph(text: string, k: nat, i: int) {
    && 0 <= i < |SplitParagraphs(text)|
    && Trim(SplitParagraphs(text)[i]) != ""
    && Count(IsKeptParagraph, SplitParagraphs(text)[..i]) == k
    && k < |ToPortableText(text)|
    && ToPortableText(text)[k] == ParagraphBlock(SplitParagraphs(text)[i])
  }

  /** When some paragraph survives, the conversion is the surviving paragraphs' blocks. */
  lemma ToPortableTextOfKept(text: string)
    requires Count(IsKeptParagraph, SplitParagraphs(text)) > 0
    ensures ToPortableText(text) == ContentBlocks(text)
  {
  }

  /** The index of the paragraph block `k` comes from. */
  lemma SourceParagraph(text: string, k: nat) returns (i: nat)
    requires Count(IsKeptParagraph, SplitParagraphs(text)) > 0
    requires k < |ToPortableText(text)|
    ensures BlockFromParagraph(text, k, i)
  {
    ToPortableTextOfKept(text);
    i := KeepFrom(IsKeptParagraph, SplitParagraphs(text), k);
  }

  /** Every block comes from a surviving paragraph, in the paragraphs' order. */
  lemma BlockComesFromParagraph(text: string, k: nat)
    requires Count(IsKeptParagraph, SplitParagraphs(text)) > 0
    requires k < |ToPortableText(text)|
    ensures exists i :: BlockFromParagraph(text, k, i)
  {
    var i := SourceParagraph(text, k);
  }

  lemma {:induction false} BlankPiecesOfBlankText(s: string)
    requires AllWhitespace(s)
    ensures forall k :: 0 <= k < |SplitParagraphs(s)| ==> AllWhitespace(SplitParagraphs(s)[k])
    decreases |s|
  {
    var r := SplitParagraphs(s);
    var k := FirstBreak(s);
    if k < |s| {
      var t := s[k + 2..];
      assert AllWhitespace(t) by {
        forall i | 0 <= i < |t| ensures IsWhitespace(t[i]) { assert t[i] == s[i + k + 2]; }
      }
      BlankPiecesOfBlankText(t);
      assert r[0] == s[..k] && r[1..] == SplitParagraphs(t);
      forall j | 0 <= j < |r| ensures AllWhitespace(r[j]) {
        if j == 0 {
          forall i | 0 <= i < k ensures IsWhitespace(r[0][i]) { assert r[0][i] == s[i]; }
        } else {
          assert r[j] == r[1..][j - 1];
        }
      }
    }
  }

  /** A body of whitespace only, the empty body included, converts to the single default block. */
  lemma BlankBodyGetsDefault(text: string)
    requires AllWhitespace(text)
    ensures ToPortableText(text) == [DefaultBlock]
  {
    var pieces := SplitParagraphs(text);
    BlankPiecesOfBlankText(text);
    forall k | 0 <= k < |pieces| ensures !IsKeptParagraph(pieces[k]) {
      TrimEmptyIff(pieces[k]);
    }
    KeepNone(IsKeptParagraph, pieces);
  }

  // ---------------------------------------------------------------------------
  // The create request sent on submit

  /**
   * `handleSubmit`'s request body: the form fields, the converted content,
   * and `mainImage` only when an image asset id has been set.
   */
  function SubmitBody(f: FormData, imageAssetId: string): (b: BlogCreateApi.BlogRequestBody)
    ensures b.title == Some(f.title) && b.slug == Some(f.slug)
    ensures b.excerpt == Some(f.excerpt) && b.author == Some(f.author) && b.category == Some(f.category)
    ensures b.content == Some(ToPortableText(f.content)) && |b.content.value| >= 1
    ensures b.mainImage.Some? <==> imageAssetId != ""
    ensures b.mainImage.Some? ==> b.mainImage.value == ImageRefTo(imageAssetId) && b.mainImage.value.asset.ref == imageAssetId
  {
    BlogCreateApi.BlogRequestBody(
      Some(f.title), Some(f.slug), Some(f.excerpt), Some(f.author), Some(f.category),
      Some(ToPortableText(f.content)),
      if imageAssetId != "" then Some(ImageRefTo(imageAssetId)) else None)
  }

  /**
   * What the endpoint does with the editor's request: it rejects an empty
   * title or slug; otherwise the stored document carries the converted
   * content (never the endpoint's starter block), only the non-empty
   * optional fields, and an image only when one was uploaded.
   */
  lemma SubmitReachesStore(f: FormData, imageAssetId: string, now: string, store: StoreReply)
    ensures var h := BlogCreateApi.HandleCreateBlog(Request("POST", SubmitBody(f, imageAssetId)), now, store);
      && (f.title == "" || f.slug == "" ==> h.response.status == 400 && h.write == None)
      && (f.title != "" && f.slug != "" ==>
            && h.write.Some?
            && h.write.value.content == ToPortableText(f.content)
            && (h.write.value.excerpt.Some? <==> f.excerpt != "")
            && (h.write.value.author.Some? <==> f.author != "")
            && (h.write.value.category.Some? <==> f.category != "")
            && (h.write.value.mainImage.Some? <==> imageAssetId != ""))
  {
  }

  /** A title with no ASCII letter or digit derives an empty slug, so submitting right after typing it is refused. */
  lemma TitleWithoutWordsIsRefused(f: FormData, title: string, imageAssetId: string, now: string, store: StoreReply)
    requires Slug.Alnums(ToLowerCase(title)) == ""
    ensures var g := InputChange(f, Title, title);
      var h := BlogCreateApi.HandleCreateBlog(Request("POST", SubmitBody(g, imageAssetId)), now, store);
      h.response == Response(400, Message(BlogCreateApi.TitleAndSlugRequired)) && h.write == None
  {
    Slug.SlugEmptyIff(title);
  }

  /**
   * The untouched form: its category is `tech`, its empty body converts to
   * the default block, and submitting it is refused for the empty title.
   */
  lemma InitialFormIsRefused(imageAssetId: string, now: string, store: StoreReply)
    ensures SubmitBody(InitialForm, imageAssetId).category == Some("tech")
    ensures SubmitBody(InitialForm, imageAssetId).content == Some([DefaultBlock])
    ensures var h := BlogCreateApi.HandleCreateBlog(Request("POST", SubmitBody(InitialForm, imageAssetId)), now, store);
      h.response == Response(400, Message(BlogCreateApi.TitleAndSlugRequired)) && h.write == None
  {
    BlankBodyGetsDefault(InitialForm.content);
  }
}
