/**
 * The post page's sidebar: the table of contents gathered from the post's
 * heading blocks, and the author card with its avatar initial and handle.
 */
module Sidebar {
  import opened JsText
  import opened Seqs
  import opened Content

  // ---------------------------------------------------------------------------
  // Table of contents

  /** A style is a heading style when it is set and one of `h1`, `h2`, `h3`. */
  predicate IsHeadingStyle(style: Option<string>) {
    Truthy(style) && style.value in ["h1", "h2", "h3"]
  }

  predicate IsHeadingBlock(b: Block) {
    b.typ == "block" && IsHeadingStyle(b.style)
  }

  /** A span's text as `join` renders it: a missing text joins as the empty string. */
  function SpanText(c: Span): string {
    if c.text.Some? then c.text.value else ""
  }

  /** The texts of the spans concatenated with no separator. */
  function JoinTexts(cs: seq<Span>): (r: string)
    ensures cs == [] ==> r == ""
  {
    if cs == [] then "" else JoinTexts(cs[..|cs| - 1]) + SpanText(cs[|cs| - 1])
  }

  /** The text of a block's spans; a block without children has none. */
  function HeadingText(b: Block): string {
    if b.children.Some? then JoinTexts(b.children.value) else ""
  }

  /** A block that contributes an entry: a heading with some text. */
  predicate IsTocEntry(b: Block) {
    IsHeadingBlock(b) && HeadingText(b) != ""
  }

  /** The headings of a post, in content order: the text of each heading block whose text is not empty. */
  function TableOfContents(content: seq<Block>): (r: seq<string>)
    ensures |r| <= |content|
    ensures forall k :: 0 <= k < |r| ==> r[k] != ""
  {
    var entries := Keep(IsTocEntry, content);
    assert forall k :: 0 <= k < |entries| ==> IsTocEntry(entries[k]);
    Map(HeadingText, entries)
  }

  lemma TableOfContentsStep(content: seq<Block>, i: nat)
    requires i < |content|
    ensures TableOfContents(content[..i + 1])
      == TableOfContents(content[..i]) + (if IsTocEntry(content[i]) then [HeadingText(content[i])] else [])
  {
    assert content[..i + 1] == content[..i] + [content[i]];
    KeepAppend(IsTocEntry, content[..i], [content[i]]);
    var last := if IsTocEntry(content[i]) then [content[i]] else [];
    assert Keep(IsTocEntry, [content[i]]) == last by {
      assert [content[i]][..0] == [];
    }
    MapAppend(HeadingText, Keep(IsTocEntry, content[..i]), last);
    if IsTocEntry(content[i]) {
      assert Map(HeadingText, last) == [HeadingText(content[i])] by {
        assert last[..0] == [];
      }
    }
  }

  /** `extractHeadings`: one pass over the blocks, pushing the text of each heading that has some. */
  method ExtractHeadings(content: seq<Block>) returns (headings: seq<string>)
    ensures headings == TableOfContents(content)
  {
    headings := [];
    for i := 0 to |content|
      invariant headings == TableOfContents(content[..i])
    {
      TableOfContentsStep(content, i);
      var block := content[i];
      if block.typ == "block" && IsHeadingStyle(block.style) {
        var text := if block.children.Some? then JoinTexts(block.children.value) else "";
        if text != "" {
          headings := headings + [text];
        }
      }
    }
    assert content[..|content|] == content;
  }

  /** The sidebar reads a post's content, taking a missing content as no blocks. */
  method SidebarHeadings(content: Option<seq<Block>>) returns (headings: seq<string>)
    ensures content.None? ==> headings == []
    ensures content.Some? ==> headings == TableOfContents(content.value)
  {
    headings := ExtractHeadings(if content.Some? then content.value else []);
  }

  /** Joining is a homomorphism from span lists to strings. */
  lemma {:induction false} JoinTextsAppend(a: seq<Span>, b: seq<Span>)
    ensures JoinTexts(a + b) == JoinTexts(a) + JoinTexts(b)
    decreases |b|
  {
    if b == [] {
      assert a + b == a;
    } else {
      var b', last := b[..|b| - 1], SpanText(b[|b| - 1]);
      assert (a + b)[..|a + b| - 1] == a + b' && (a + b)[|a + b| - 1] == b[|b| - 1];
      JoinTextsAppend(a, b');
      assert (JoinTexts(a) + JoinTexts(b')) + last == JoinTexts(a) + (JoinTexts(b') + last);
    }
  }

  /** A block built from one span of text contributes that text when it is a heading and the text is not empty. */
  lemma OneSpanHeading(style: string, text: string)
    ensures TableOfContents([TextBlock(style, text)])
      == (if style in ["h1", "h2", "h3"] && text != "" then [text] else [])
  {
    var b := TextBlock(style, text);
    assert [Span("span", Some(text))][..0] == [];
    assert HeadingText(b) == text;
    assert [b][..0] == [];
    assert IsTocEntry(b) <==> style in ["h1", "h2", "h3"] && text != "";
    if IsTocEntry(b) {
      assert Keep(IsTocEntry, [b]) == [b];
      assert [b][..0] == [];
    } else {
      assert Keep(IsTocEntry, [b]) == [];
    }
  }

  /** The contents of two runs of blocks is the contents of the first followed by that of the second. */
  lemma TableOfContentsAppend(a: seq<Block>, b: seq<Block>)
    ensures TableOfContents(a + b) == TableOfContents(a) + TableOfContents(b)
  {
    KeepAppend(IsTocEntry, a, b);
    MapAppend(HeadingText, Keep(IsTocEntry, a), Keep(IsTocEntry, b));
  }

  /** Every heading with text is listed, after exactly the entries of the blocks before it. */
  lemma EveryHeadingIsListed(content: seq<Block>, i: nat)
    requires i < |content| && IsTocEntry(content[i])
    ensures var k := Count(IsTocEntry, content[..i]);
      k < |TableOfContents(content)| && TableOfContents(content)[k] == HeadingText(content[i])
  {
    KeepAt(IsTocEntry, content, i);
  }

  predicate ListedFrom(content: seq<Block>, k: nat, i: int) {
    && 0 <= i < |content|
    && IsTocEntry(content[i])
    && Count(IsTocEntry, content[..i]) == k
    && k < |TableOfContents(content)|
    && TableOfContents(content)[k] == HeadingText(content[i])
  }

  /** Every entry is the text of a heading block of the content, in content order. */
  lemma EveryEntryIsAHeading(content: seq<Block>, k: nat)
    requires k < |TableOfContents(content)|
    ensures exists i :: ListedFrom(content, k, i)
  {
    var i := KeepFrom(IsTocEntry, content, k);
    assert ListedFrom(content, k, i);
  }

  /** The table of contents is shown exactly when some block is a heading with text. */
  lemma TableShownIff(content: seq<Block>)
    ensures TableOfContents(content) != [] <==> exists i :: 0 <= i < |content| && IsTocEntry(content[i])
  {
    if exists i :: 0 <= i < |content| && IsTocEntry(content[i]) {
      var i :| 0 <= i < |content| && IsTocEntry(content[i]);
      EveryHeadingIsListed(content, i);
    }
    if TableOfContents(content) != [] {
      EveryEntryIsAHeading(content, 0);
    }
  }

  // ---------------------------------------------------------------------------
  // Author card

  /** A character the handle keeps. */
  predicate Visible(c: char) {
    !IsWhitespace(c)
  }

  /** The length of the run of whitespace `s` starts with. */
  function WhitespaceRun(s: string): (n: nat)
    ensures n <= |s|
    ensures forall i :: 0 <= i < n ==> IsWhitespace(s[i])
    ensures n < |s| ==> !IsWhitespace(s[n])
  {
    if s != [] && IsWhitespace(s[0]) then 1 + WhitespaceRun(s[1..]) else 0
  }

  /** Every maximal run of whitespace replaced by nothing. */
  function RemoveWhitespace(s: string): (r: string)
    ensures |r| <= |s|
    ensures forall k :: 0 <= k < |r| ==> Visible(r[k])
    decreases |s|
  {
    if s == [] then ""
    else if IsWhitespace(s[0]) then RemoveWhitespace(s[WhitespaceRun(s)..])
    else [s[0]] + RemoveWhitespace(s[1..])
  }

  /** Removing the runs is the same as keeping every non-whitespace character, in order. */
  lemma {:induction false} RemoveWhitespaceKeepsVisible(s: string)
    ensures RemoveWhitespace(s) == Keep(Visible, s)
    decreases |s|
  {
    if s == [] {
    } else if IsWhitespace(s[0]) {
      var n := WhitespaceRun(s);
      assert s == s[..n] + s[n..];
      KeepNone(Visible, s[..n]);
      KeepAppend(Visible, s[..n], s[n..]);
      RemoveWhitespaceKeepsVisible(s[n..]);
    } else {
      assert s == [s[0]] + s[1..];
      KeepCons(Visible, s[0], s[1..]);
      RemoveWhitespaceKeepsVisible(s[1..]);
    }
  }

  /** The `@` handle: the author's name lower-cased with all whitespace removed. */
  function AuthorHandle(author: string): (r: string)
    ensures |r| <= |author|
    ensures forall k :: 0 <= k < |r| ==> Visible(r[k]) && !IsUpperAscii(r[k])
  {
    var lower := ToLowerCase(author);
    RemoveWhitespaceKeepsVisible(lower);
    RemoveWhitespace(lower)
  }

  lemma ToLowerCaseAppend(a: string, b: string)
    ensures ToLowerCase(a + b) == ToLowerCase(a) + ToLowerCase(b)
  {
  }

  /** The handle of a name is the handles of its parts run together. */
  lemma HandleAppend(a: string, b: string)
    ensures AuthorHandle(a + b) == AuthorHandle(a) + AuthorHandle(b)
  {
    ToLowerCaseAppend(a, b);
    RemoveWhitespaceKeepsVisible(ToLowerCase(a + b));
    RemoveWhitespaceKeepsVisible(ToLowerCase(a));
    RemoveWhitespaceKeepsVisible(ToLowerCase(b));
    KeepAppend(Visible, ToLowerCase(a), ToLowerCase(b));
  }

  /** A whitespace character alone has an empty handle. */
  lemma HandleOfWhitespace(c: char)
    requires IsWhitespace(c)
    ensures AuthorHandle([c]) == ""
  {
    var l := ToLowerCase([c]);
    LowerCharKeepsWhitespace(c);
    assert l == [LowerChar(c)];
    assert WhitespaceRun(l) == 1 by {
      assert l[1..] == [];
    }
    assert RemoveWhitespace(l) == RemoveWhitespace(l[1..]);
  }

  /** The whitespace between two words of a name, a space or any other, disappears from the handle. */
  lemma HandleDropsSpaces(a: string, c: char, b: string)
    requires IsWhitespace(c)
    ensures AuthorHandle(a + [c] + b) == AuthorHandle(a) + AuthorHandle(b)
  {
    HandleOfWhitespace(c);
    HandleAppend(a, [c]);
    assert AuthorHandle(a + [c]) == AuthorHandle(a);
    HandleAppend(a + [c], b);
  }

  /** A handle is its own handle. */
  lemma HandleIdempotent(author: string)
    ensures AuthorHandle(AuthorHandle(author)) == AuthorHandle(author)
  {
    var h := AuthorHandle(author);
    assert ToLowerCase(h) == h;
    RemoveWhitespaceKeepsVisible(h);
    KeepAll(Visible, h);
  }

  /** The first character upper-cased, or nothing for an empty name. */
  function AvatarInitial(author: string): (r: string)
    ensures author == "" ==> r == ""
    ensures author != "" ==> r == [UpperChar(author[0])]
    ensures r != "" ==> !IsLowerAscii(r[0])
  {
    ToUpperCase(author[..if author == "" then 0 else 1])
  }

  /** When the name does not start with whitespace, the avatar's letter and the handle start with the same letter up to case. */
  lemma InitialStartsHandle(author: string)
    requires author != "" && !IsWhitespace(author[0])
    ensures AuthorHandle(author) != ""
    ensures AuthorHandle(author)[0] == LowerChar(AvatarInitial(author)[0])
  {
    var lower := ToLowerCase(author);
    LowerCharKeepsWhitespace(author[0]);
    assert lower == [lower[0]] + lower[1..];
    KeepCons(Visible, lower[0], lower[1..]);
    RemoveWhitespaceKeepsVisible(lower);
  }

  /** The author card: shown only for a set author name. */
  datatype AuthorCard = AuthorCard(initial: string, name: string, handle: string)

  function AuthorCardOf(author: Option<string>): (r: Option<AuthorCard>)
    ensures r.Some? <==> Truthy(author)
    ensures r.Some? ==> r.value.name == author.value
    ensures r.Some? ==> r.value.initial == AvatarInitial(author.value) && |r.value.initial| == 1
    ensures r.Some? ==> r.value.handle == AuthorHandle(author.value)
  {
    if Truthy(author) then Some(AuthorCard(AvatarInitial(author.value), author.value, AuthorHandle(author.value)))
    else None
  }
}
