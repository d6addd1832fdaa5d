# Blog platform core, modelled in Dafny

This project models the logic at the core of a small blogging site built on
Next.js with a headless content store:

- **The post editor** (`pages/blog/create.tsx`). It derives a URL slug from the title as the
  author types. It converts the plain-text body into Portable Text paragraphs. It then
  builds the request that creates the post.
- **The home page list** (`pages/index.tsx`). It filters the posts by category and sorts
  them newest first, oldest first or by views.
- **The post sidebar** (`components/BlogSidebar.tsx`). It builds the table of contents from
  the heading blocks, plus the author's avatar initial and `@` handle.
- **The three write endpoints:**
  - post creation (`pages/api/blog/create.ts`);
  - comment creation (`pages/api/comments/index.ts`);
  - image upload (`pages/api/upload-image.ts`).

Modules:

| module | file | what it holds |
|---|---|---|
| `JsText` | jstext.dfy | JavaScript string behaviour the core relies on: truthiness of optional strings, `||` defaults, ASCII case mapping, the ECMAScript whitespace set, `trim` |
| `Seqs` | seqs.dfy | `filter` and `map` on sequences, and the position of each kept element |
| `Content` | content.dfy | Portable Text blocks and spans, image references |
| `Http` | http.dfy | requests, responses, and what a handler hands to the store |
| `Slug` | slug.dfy | slug derivation and its shape, idempotence and word-preservation proofs |
| `CreateForm` | create_form.dfy | the editor's field updates, body conversion and submitted request |
| `PostList` | post_list.dfy | the home page filter and the stable comparator sort |
| `Sidebar` | sidebar.dfy | the table of contents (a loop proved against its specification) and the author card |
| `BlogCreateApi` | blog_create_api.dfy | the post-creation handler |
| `CommentsApi` | comments_api.dfy | the comment handler, including JavaScript's comparison of `null`, `undefined` and `NaN` ratings |
| `UploadApi` | upload_api.dfy | the upload handler and its removal of the data-URL header |

Each handler is a function of its inputs:
- the request;
- for the post and comment handlers, the clock reading, a string (the upload handler reads no clock);
- what the content store answers.

It returns two things:
- the response it sends;
- the one document, or upload, it hands to the store, if any.

This makes the order of the checks, and "no write on a rejected request", statements about values.

## Model

| member | source | states |
|---|---|---|
| Slug.Slugify | pages/blog/create.tsx:31-35 | the derived slug holds only `a`-`z`, `0`-`9` and `-`; it has no `--` and no leading or trailing `-` |
| Slug.SlugifyIdempotent | pages/blog/create.tsx:31-35 | deriving a slug from a slug gives it back unchanged |
| Slug.SlugifyKeepsAlnums | pages/blog/create.tsx:31-35 | the slug keeps exactly the lower-cased title's letters and digits, in order; every other slug character is `-` |
| Slug.SlugEmptyIff | pages/blog/create.tsx:31-35 | the slug is empty if and only if the lower-cased title has no ASCII letter or digit |
| Slug.SlugifyKeepsWords | pages/blog/create.tsx:31-35 | the slug's words are the lower-cased title's maximal `[a-z0-9]` runs |
| Slug.WellFormedIsJoinedWords | pages/blog/create.tsx:31-35 | a well-formed slug is its own words joined by single dashes |
| Slug.SlugifyIsJoinedWords | pages/blog/create.tsx:31-35 | the slug equals the title's words joined with `-`, an independent definition of the regex pipeline |
| Slug.CollapseSeparators | pages/blog/create.tsx:34 | the result is never longer than the text, has only `[a-z0-9]` characters and dashes and no `--`, and it starts and ends like the text: with its first (last) character, or with a dash when that is a separator |
| Slug.AlnumsCollapse | pages/blog/create.tsx:34 | collapsing keeps every letter and digit, in order |
| Slug.WordsCollapse | pages/blog/create.tsx:34 | collapsing keeps the maximal `[a-z0-9]` runs; with the contract of `CollapseSeparators` (no longer than the text, no `--`, edge characters kept or made a dash), each separator run, the leading and trailing ones included, has become one dash |
| Slug.CollapseKeepsWellFormed | pages/blog/create.tsx:34 | text with only slug characters and single dashes is left unchanged |
| Slug.StripEdgeDashes | pages/blog/create.tsx:35 | at most two characters are removed, and text that neither starts nor ends with a dash is unchanged |
| Slug.StripEdgeDashesWellFormed | pages/blog/create.tsx:35 | on collapsed text, the result neither starts nor ends with a dash, and keeps only slug characters and single dashes |
| Slug.AlnumsStrip | pages/blog/create.tsx:35 | stripping removes no letter or digit |
| Slug.StripEdgeDashesIsSlice | pages/blog/create.tsx:35 | stripping leaves a slice of the text, cutting at most one character from each end, and each character cut is a `-` |
| Slug.WordsStrip | pages/blog/create.tsx:35 | stripping keeps the words |
| CreateForm.InputChange | pages/blog/create.tsx:21-41 | the changed field takes the value; a title change also sets the slug to the derived, well-formed slug; every other field is unchanged |
| CreateForm.FirstBreak | pages/blog/create.tsx:50 | the separator search returns the leftmost `\n\n`: no separator starts before it, and one starts there unless it is the end of the text |
| CreateForm.SplitParagraphs | pages/blog/create.tsx:49-50 | splitting at the blank-line separator gives at least one piece; the first piece is a prefix of the text, followed by the separator when there is more than one piece |
| CreateForm.SplitJoinRoundTrip | pages/blog/create.tsx:49-50 | the pieces joined with the separator give the text back |
| CreateForm.SplitPiecesHaveNoBreak | pages/blog/create.tsx:49-50 | no piece contains the separator |
| CreateForm.SplitCutsLeftmost | pages/blog/create.tsx:49-50 | no piece but the last ends in a newline, so each cut is at the leftmost separator |
| CreateForm.SplitParagraphsSpec | pages/blog/create.tsx:49-50 | the three facts together, which pin the split down |
| CreateForm.ContentBlocksShape | pages/blog/create.tsx:49-61 | there is one block per paragraph whose trimmed text is non-empty, each a `normal` block with one non-empty span |
| CreateForm.ToPortableText | pages/blog/create.tsx:49-78 | the content is never empty and every block is a paragraph block; with no surviving paragraph it is the single default block, and otherwise there is one block per surviving paragraph |
| CreateForm.ParagraphBecomesBlock | pages/blog/create.tsx:51-61 | each surviving paragraph becomes a block of its trimmed text, placed after the blocks of the survivors before it |
| CreateForm.BlockComesFromParagraph | pages/blog/create.tsx:51-61 | every block comes from a surviving paragraph, in paragraph order |
| CreateForm.BlankPiecesOfBlankText | pages/blog/create.tsx:49-51 | the pieces of an all-whitespace text are all whitespace |
| CreateForm.BlankBodyGetsDefault | pages/blog/create.tsx:63-78 | an all-whitespace body, the empty one included, becomes exactly the default block |
| CreateForm.SubmitBody | pages/blog/create.tsx:85-98 | the request carries the form fields and exactly the converted body, which is never empty; `mainImage` is present if and only if an asset id is set, and is then the image reference to that asset |
| CreateForm.SubmitReachesStore | pages/blog/create.tsx:85-98 | the endpoint stores the editor's converted content and only its non-empty optional fields; it refuses an empty title or slug |
| CreateForm.InitialFormIsRefused | pages/blog/create.tsx:12-19 | the untouched form has category `tech` and converts its empty body to the default block; submitting it is refused with 400 and writes nothing |
| CreateForm.TitleWithoutWordsIsRefused | pages/blog/create.tsx:31-35 | a title without ASCII letters or digits gives an empty slug, which the endpoint refuses with 400 |
| PostList.FilterPosts | pages/index.tsx:29-32 | `all` keeps the list; any other value keeps only input posts of that category, and never more posts than the input |
| PostList.FilterKeepsEachMatch | pages/index.tsx:29-32 | every post of the selected category is kept, after exactly the matching posts before it |
| PostList.FilterOnlyMatches | pages/index.tsx:29-32 | every kept post is an input post of the selected category, in input order |
| PostList.Compare | pages/index.tsx:34-45 | each comparator is the difference of a rank, so it is a consistent total preorder |
| PostList.InsertPermutes | pages/index.tsx:34-45 | insertion adds exactly the inserted post |
| PostList.InsertSorted | pages/index.tsx:34-45 | insertion into a sorted list keeps it sorted |
| PostList.SortPosts | pages/index.tsx:34-45 | the sorted copy is a permutation of its input, in non-decreasing rank for the key, with posts of equal rank in input order |
| PostList.SortIsSortedPermutation | pages/index.tsx:34-45 | the sort returns a permutation of its input in non-decreasing rank |
| PostList.OfRankInsert | pages/index.tsx:34-45 | inserting a post puts it first among the posts of its rank |
| PostList.SortIsStable | pages/index.tsx:34-45 | posts of equal rank keep their input order |
| PostList.SortKeepsSortedInput | pages/index.tsx:34-45 | an input already in order comes back unchanged |
| PostList.SortAgreesWithComparator | pages/index.tsx:34-45 | along the result the comparator is never positive for an earlier post against a later one |
| PostList.UnknownKeyKeepsOrder | pages/index.tsx:44 | under an unknown sort key the filtered order is kept |
| PostList.VisiblePosts | pages/index.tsx:29-45 | the shown list is a permutation of the filtered posts, in the key's order |
| PostList.LatestIsNewestFirst | pages/index.tsx:35-37 | with `latest`, publication dates never increase along the list |
| PostList.OldestIsOldestFirst | pages/index.tsx:38-40 | with `oldest`, publication dates never decrease along the list |
| PostList.PopularIsMostViewedFirst | pages/index.tsx:41-43 | with `popular`, views never increase along the list; a missing count reads as 0 |
| PostList.InitialViewShowsDeliveredOrder | pages/index.tsx:17-18 | the initial state, all categories newest first, shows posts delivered newest first exactly as delivered |
| Sidebar.ExtractHeadings | components/BlogSidebar.tsx:18-29 | the loop returns the table of contents: the text of each `h1`-`h3` block with non-empty text, in order |
| Sidebar.SidebarHeadings | components/BlogSidebar.tsx:31 | a post without content has no headings |
| Sidebar.TableOfContents | components/BlogSidebar.tsx:18-29 | no entry is empty, and there are never more entries than blocks |
| Sidebar.EveryHeadingIsListed | components/BlogSidebar.tsx:20-26 | each heading with text is listed, after exactly the entries of the blocks before it |
| Sidebar.EveryEntryIsAHeading | components/BlogSidebar.tsx:20-26 | each entry is the text of some heading block, in content order |
| Sidebar.TableShownIff | components/BlogSidebar.tsx:72 | the table is shown if and only if some block is a heading with text |
| Sidebar.TableOfContentsAppend | components/BlogSidebar.tsx:20-27 | the contents of two runs of blocks is the first's followed by the second's |
| Sidebar.OneSpanHeading | components/BlogSidebar.tsx:21-25 | a one-span block is listed with its text exactly when its style is `h1`-`h3` and the text is non-empty |
| Sidebar.JoinTextsAppend | components/BlogSidebar.tsx:22-24 | joining span texts distributes over concatenation |
| Sidebar.RemoveWhitespace | components/BlogSidebar.tsx:65 | removing whitespace runs leaves no whitespace |
| Sidebar.RemoveWhitespaceKeepsVisible | components/BlogSidebar.tsx:65 | removing whitespace runs is the same as keeping every non-whitespace character, in order |
| Sidebar.AuthorHandle | components/BlogSidebar.tsx:65 | the handle has no whitespace and no upper-case ASCII letter, and is never longer than the name |
| Sidebar.HandleAppend | components/BlogSidebar.tsx:65 | the handle of a name is the handles of its parts run together |
| Sidebar.HandleOfWhitespace | components/BlogSidebar.tsx:65 | a whitespace character alone has an empty handle |
| Sidebar.HandleDropsSpaces | components/BlogSidebar.tsx:65 | any whitespace character between two parts of a name disappears from the handle, which is the handles of the parts run together |
| Sidebar.HandleIdempotent | components/BlogSidebar.tsx:65 | a handle is its own handle |
| Sidebar.AvatarInitial | components/BlogSidebar.tsx:61 | the avatar shows the name's first character upper-cased (never a lower-case ASCII letter), or nothing for an empty name |
| Sidebar.InitialStartsHandle | components/BlogSidebar.tsx:61-65 | when the name does not start with whitespace, the avatar letter and the handle start with the same letter, up to case |
| Sidebar.AuthorCardOf | components/BlogSidebar.tsx:56-65 | the author card is shown if and only if the author is set; it carries the name, the one-character avatar initial of the name, and the name's handle |
| BlogCreateApi.IfTruthy | pages/api/blog/create.ts:44-47 | an optional field is present if and only if the request's value is truthy, and then unchanged |
| BlogCreateApi.HandleCreateBlog | pages/api/blog/create.ts:8-59 | non-POST gives 405, then a missing title or slug gives 400; only an accepted request writes, once, a well-formed document (fields copied, `views` 0, comments on, default content only when none is sent); the store's answer decides 200 or 500 |
| BlogCreateApi.RejectedIgnoresStore | pages/api/blog/create.ts:8-17 | a rejected request's outcome does not depend on the store |
| CommentsApi.HandleComment | pages/api/comments/index.ts:8-45 | non-POST gives 405; then missing fields, then an out-of-range rating, give 400; only an accepted request writes, once, the comment document; the store's answer decides 200 or 500 |
| CommentsApi.RatingAcceptedIff | pages/api/comments/index.ts:16-18 | a rating passes if and only if it is absent, `NaN`, or a number from 1 to 5; `null` is refused |
| CommentsApi.StoredRatingInRange | pages/api/comments/index.ts:16-33 | a stored comment's rating is absent, `NaN`, or within 1..5 |
| CommentsApi.CommentRejectedIgnoresStore | pages/api/comments/index.ts:8-18 | a rejected request's outcome does not depend on the store |
| UploadApi.WordRun | pages/api/upload-image.ts:21 | the longest run of `\w` characters at the start |
| UploadApi.StripDataUrlPrefix | pages/api/upload-image.ts:21 | the result is a suffix of the input |
| UploadApi.StripRemovesHeader | pages/api/upload-image.ts:21 | a `data:image/<word>;base64,` header comes off, leaving exactly the payload |
| UploadApi.ChangedMeansHeader | pages/api/upload-image.ts:21 | when the data changes, it starts with `data:image/`, a non-empty run of `\w` characters and `;base64,` |
| UploadApi.HeaderMeansChanged | pages/api/upload-image.ts:21 | data that starts with such a header always changes |
| UploadApi.StripChangesIff | pages/api/upload-image.ts:21 | the data changes if and only if it starts with such a header |
| UploadApi.StripRemovesOneHeader | pages/api/upload-image.ts:21 | only the first header is removed |
| UploadApi.NonWordSubtypeIsKept | pages/api/upload-image.ts:21 | a subtype followed by a character outside `\w` other than `;`, as the `+` of `svg+xml`, does not match: the data is kept whole |
| UploadApi.HandleUpload | pages/api/upload-image.ts:9-44 | non-POST gives 405, then missing image data gives 400; only an accepted request uploads the stripped data with the default name `image.jpg` and type `image/jpeg` when unset; 200 carries the built URL or else the asset's URL, and the asset id; an upload error gives 500 |
| UploadApi.UploadSendsPayload | pages/api/upload-image.ts:16-28 | a data URL reaches the store as its bare payload |
| UploadApi.UploadedUrlIsSet | pages/api/upload-image.ts:31-37 | a successful upload answers with a non-empty URL whenever either URL is set |
| UploadApi.UploadRejectedIgnoresStore | pages/api/upload-image.ts:9-18 | a rejected request's outcome does not depend on the store |
| JsText.TrimEmptyIff | pages/blog/create.tsx:51 | `trim` gives the empty string if and only if every character is whitespace |
| JsText.Trim | pages/blog/create.tsx:57 | the result is no longer than the text and neither starts nor ends with whitespace |
| JsText.TrimIsSlice | pages/blog/create.tsx:51-57 | `trim` removes only whitespace, and only from the ends: the result is a slice of the text with whitespace before and after it |
| JsText.LowerCaseIdempotent | pages/blog/create.tsx:33 | lower-casing twice is lower-casing once |
| JsText.LowerCaseUnchangedIff | pages/blog/create.tsx:33 | lower-casing leaves a string unchanged if and only if it holds no `A`-`Z` |

## Left out

- Unicode case mapping is not modelled. `toLowerCase` and `toUpperCase` are modelled on ASCII letters only, and every other character is unchanged. For the slug this matters only where Unicode lower-casing yields an ASCII letter: `İ` becomes `i` plus a combining dot, and the Kelvin sign becomes `k`, so the browser's slug keeps a letter the model treats as a separator. Other accented capitals, such as `À` becoming `à`, are separators in both. For the avatar initial, a non-ASCII lower-case first letter (`é`) is upper-cased by the browser but kept as it is here, and special cases such as `ß` becoming `SS` are not covered.
- UTF-16 code units are not modelled. Strings are sequences of Unicode scalar values, so `charAt(0)` of a name starting with an astral character gives the whole character here.
- Date parsing is not modelled. `publishedAt` is an integer (epoch milliseconds). An unparsable date, which gives `NaN` in the comparator and an inconsistent sort, is not covered.
- The sort's algorithm is not modelled. `Array.prototype.sort` is stable, and the model is a stable insertion sort. Any stable sort with the same comparator gives the same order.
- Base64 decoding of the uploaded image, and the bytes it yields, are not modelled. The model hands the store the base64 text left after the header is removed.
- The content store, the image-URL builder and the clock are not modelled as code. Each is a parameter: what the store answers, the URL built for the asset, and the time string.
- Which exception the store throws is not modelled; only its message is kept. Logging to the console is not modelled.
- Request bodies are not type-checked. Every optional string field is a string or absent. Non-string values, and a missing body (which makes the destructuring throw and the handler answer 500), are not modelled. `content` and `mainImage` are sent as present or absent.
- CommentsApi.HandleComment: a `rating` sent as a string or a boolean is not modelled. It is converted by the same comparison rules in JavaScript, but only absent, `null`, `NaN` and numbers are modelled.
- The browser side of submitting is not modelled: sending the request, redirecting and alerting. Neither is anything the pages render beyond the values computed for them (anchors, dates, layout). The editor's image upload widget is left out as well.
- Sign-in and the session checks of other pages are not modelled; they are not part of this core.
- React's state updates are modelled as values. `setFormData` with the spread copy becomes a function from the old form to the new one, and the two updates of a title change become one.
- The other pages, the comment listing endpoint, the single-post endpoint and the authentication configuration are not part of this model.
