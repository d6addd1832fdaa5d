/**
 * Slug derivation of the post editor: the title is lower-cased, every run of
 * characters outside `[a-z0-9]` becomes one `-`, and a leading and a trailing
 * `-` are removed.
 */
module Slug {
  import opened JsText

  /** The characters `[a-z0-9]`. */
  predicate IsSlugChar(c: char) {
    'a' <= c <= 'z' || '0' <= c <= '9'
  }

  predicate OnlySlugCharsAndDashes(s: string) {
    forall i :: 0 <= i < |s| ==> IsSlugChar(s[i]) || s[i] == '-'
  }

  /** A dash at index `i` of `s` is followed by another. */
  predicate DoubleDashAt(s: string, i: int) {
    0 <= i && i + 1 < |s| && s[i] == '-' && s[i + 1] == '-'
  }

  predicate NoDoubleDash(s: string) {
    forall i :: 0 <= i < |s| ==> !DoubleDashAt(s, i)
  }

  lemma NoDoubleDashCons(c: char, t: string)
    requires NoDoubleDash(t) && (c != '-' || t == [] || t[0] != '-')
    ensures NoDoubleDash([c] + t)
  {
    var r := [c] + t;
    forall i | 0 <= i < |r| ensures !DoubleDashAt(r, i) {
      if i > 0 && DoubleDashAt(r, i) { assert DoubleDashAt(t, i - 1); }
    }
  }

  lemma NoDoubleDashDrop(s: string, i: nat)
    requires NoDoubleDash(s) && i <= |s|
    ensures NoDoubleDash(s[i..])
  {
    NoDoubleDashSlice(s, i, |s|);
    assert s[i..|s|] == s[i..];
  }

  lemma NoDoubleDashSlice(s: string, i: nat, j: nat)
    requires NoDoubleDash(s) && i <= j <= |s|
    ensures NoDoubleDash(s[i..j])
  {
    var r := s[i..j];
    forall k | 0 <= k < |r| ensures !DoubleDashAt(r, k) {
      if DoubleDashAt(r, k) { assert DoubleDashAt(s, i + k); }
    }
  }

  predicate NoEdgeDash(s: string) {
    s != [] ==> s[0] != '-' && s[|s| - 1] != '-'
  }

  /** What a derived slug looks like: `[a-z0-9]` words joined by single dashes. */
  predicate WellFormedSlug(s: string) {
    OnlySlugCharsAndDashes(s) && NoDoubleDash(s) && NoEdgeDash(s)
  }

  /** Drops the leading run of characters outside `[a-z0-9]` (one regex match of `[^a-z0-9]+`). */
  function SkipSeparators(s: string): (r: string)
    ensures |r| <= |s|
    ensures r == [] || IsSlugChar(r[0])
    ensures r != [] ==> r[|r| - 1] == s[|s| - 1]
    ensures r == [] && s != [] ==> !IsSlugChar(s[|s| - 1])
  {
    if s != [] && !IsSlugChar(s[0]) then SkipSeparators(s[1..]) else s
  }

  /** Each maximal run of separators becomes a single dash. */
  function CollapseSeparators(s: string): (r: string)
    ensures OnlySlugCharsAndDashes(r)
    ensures NoDoubleDash(r)
    ensures s != [] ==> r != [] && r[0] == (if IsSlugChar(s[0]) then s[0] else '-')
    ensures s != [] ==> r[|r| - 1] == (if IsSlugChar(s[|s| - 1]) then s[|s| - 1] else '-')
    ensures |r| <= |s|
    decreases |s|
  {
    if s == [] then []
    else if IsSlugChar(s[0]) then
      var t := CollapseSeparators(s[1..]);
      NoDoubleDashCons(s[0], t);
      [s[0]] + t
    else
      var t := CollapseSeparators(SkipSeparators(s));
      NoDoubleDashCons('-', t);
      "-" + t
  }

  /** Removes one leading and one trailing dash, if present. */
  function StripEdgeDashes(s: string): (r: string)
    ensures |s| - 2 <= |r| <= |s|
    ensures NoEdgeDash(s) ==> r == s
  {
    var a := if s != [] && s[0] == '-' then s[1..] else s;
    if a != [] && a[|a| - 1] == '-' then a[..|a| - 1] else a
  }

  /**
   * Stripping cuts at most one character from each end of `s`, and every
   * character it cuts is a `-`: the result is the slice `s[i..j]`.
   */
  lemma StripEdgeDashesIsSlice(s: string) returns (i: nat, j: nat)
    ensures i <= j <= |s| && StripEdgeDashes(s) == s[i..j]
    ensures i <= 1 && |s| <= j + 1
    ensures forall k :: 0 <= k < |s| && (k < i || j <= k) ==> s[k] == '-'
  {
    i := if s != [] && s[0] == '-' then 1 else 0;
    var a := s[i..];
    if a != [] && a[|a| - 1] == '-' {
      j := |s| - 1;
      assert a[..|a| - 1] == s[i..j];
    } else {
      j := |s|;
      assert a == s[i..j];
    }
  }

  /**
   * The slug the editor derives from a title. It holds only `a`-`z`, `0`-`9`
   * and `-`, never starts or ends with `-`, and never holds `--`.
   */
  function Slugify(title: string): (r: string)
    ensures WellFormedSlug(r)
  {
    var c := CollapseSeparators(ToLowerCase(title));
    StripEdgeDashesWellFormed(c);
    StripEdgeDashes(c)
  }

  // ---------------------------------------------------------------------------
  // Shape of the slug

  lemma StripEdgeDashesWellFormed(s: string)
    requires OnlySlugCharsAndDashes(s) && NoDoubleDash(s)
    ensures WellFormedSlug(StripEdgeDashes(s))
  {
    var a := if s != [] && s[0] == '-' then s[1..] else s;
    if s != [] { NoDoubleDashDrop(s, 1); }
    assert OnlySlugCharsAndDashes(a) && NoDoubleDash(a);
    if s != [] && s[0] == '-' && |s| > 1 {
      assert !DoubleDashAt(s, 0);
    }
    assert a == [] || a[0] != '-';
    if a != [] && a[|a| - 1] == '-' {
      NoDoubleDashSlice(a, 0, |a| - 1);
      assert a[0..|a| - 1] == a[..|a| - 1];
      if |a| > 1 {
        assert !DoubleDashAt(a, |a| - 2);
      }
    }
  }

  // ---------------------------------------------------------------------------
  // Idempotence

  lemma {:induction false} CollapseKeepsWellFormed(s: string)
    requires OnlySlugCharsAndDashes(s) && NoDoubleDash(s)
    ensures CollapseSeparators(s) == s
    decreases |s|
  {
    if s != [] {
      NoDoubleDashDrop(s, 1);
      assert OnlySlugCharsAndDashes(s[1..]);
      if IsSlugChar(s[0]) {
        CollapseKeepsWellFormed(s[1..]);
      } else {
        assert s[0] == '-';
        assert |s| > 1 ==> !DoubleDashAt(s, 0);
        assert SkipSeparators(s) == s[1..] by {
          assert SkipSeparators(s) == SkipSeparators(s[1..]);
        }
        CollapseKeepsWellFormed(s[1..]);
      }
    }
  }

  /** Deriving a slug from an already derived slug returns it unchanged. */
  lemma SlugifyIdempotent(title: string)
    ensures Slugify(Slugify(title)) == Slugify(title)
  {
    var s := Slugify(title);
    assert ToLowerCase(s) == s;
    CollapseKeepsWellFormed(s);
  }

  // ---------------------------------------------------------------------------
  // Letters and digits are kept, in order

  /** The `[a-z0-9]` characters of `s`, in order. */
  function Alnums(s: string): string {
    if s == [] then [] else (if IsSlugChar(s[0]) then [s[0]] else []) + Alnums(s[1..])
  }

  lemma AlnumsCons(c: char, t: string)
    ensures Alnums([c] + t) == (if IsSlugChar(c) then [c] else []) + Alnums(t)
  {
    var u := [c] + t;
    assert u[0] == c && u[1..] == t;
  }

  lemma {:induction false} AlnumsAppend(a: string, b: string)
    ensures Alnums(a + b) == Alnums(a) + Alnums(b)
    decreases |a|
  {
    if a == [] {
      assert a + b == b;
    } else {
      var h := if IsSlugChar(a[0]) then [a[0]] else [];
      assert a + b == [a[0]] + (a[1..] + b);
      AlnumsCons(a[0], a[1..] + b);
      AlnumsAppend(a[1..], b);
      assert a == [a[0]] + a[1..];
      AlnumsCons(a[0], a[1..]);
      assert h + (Alnums(a[1..]) + Alnums(b)) == (h + Alnums(a[1..])) + Alnums(b);
    }
  }

  /** A separator character at either end contributes nothing. */
  lemma AlnumsEdgeSeparator(s: string)
    requires s != []
    ensures !IsSlugChar(s[0]) ==> Alnums(s) == Alnums(s[1..])
    ensures !IsSlugChar(s[|s| - 1]) ==> Alnums(s) == Alnums(s[..|s| - 1])
  {
    var init, last := s[..|s| - 1], s[|s| - 1];
    assert s == init + [last];
    AlnumsAppend(init, [last]);
    AlnumsCons(last, []);
    assert [last] + [] == [last];
  }

  lemma {:induction false} AlnumsSkip(s: string)
    ensures Alnums(SkipSeparators(s)) == Alnums(s)
    decreases |s|
  {
    if s != [] && !IsSlugChar(s[0]) {
      AlnumsSkip(s[1..]);
    }
  }

  lemma {:induction false} AlnumsCollapse(s: string)
    ensures Alnums(CollapseSeparators(s)) == Alnums(s)
    decreases |s|
  {
    if s != [] {
      if IsSlugChar(s[0]) {
        AlnumsCollapse(s[1..]);
        AlnumsCons(s[0], CollapseSeparators(s[1..]));
      } else {
        AlnumsCollapse(SkipSeparators(s));
        AlnumsSkip(s);
        AlnumsCons('-', CollapseSeparators(SkipSeparators(s)));
      }
    }
  }

  lemma AlnumsStrip(s: string)
    ensures Alnums(StripEdgeDashes(s)) == Alnums(s)
  {
    var a := if s != [] && s[0] == '-' then s[1..] else s;
    if s != [] {
      AlnumsEdgeSeparator(s);
    }
    if a != [] {
      AlnumsEdgeSeparator(a);
    }
  }

  /**
   * The letters and digits of the lower-cased title appear in the slug in
   * the same order, and nothing else does (every other slug character is `-`).
   */
  lemma SlugifyKeepsAlnums(title: string)
    ensures Alnums(Slugify(title)) == Alnums(ToLowerCase(title))
    ensures forall i :: 0 <= i < |Slugify(title)| && !IsSlugChar(Slugify(title)[i]) ==> Slugify(title)[i] == '-'
  {
    var c := CollapseSeparators(ToLowerCase(title));
    AlnumsCollapse(ToLowerCase(title));
    AlnumsStrip(c);
  }

  /** The slug is empty exactly when the title has no ASCII letter or digit. */
  lemma SlugEmptyIff(title: string)
    ensures Slugify(title) == "" <==> Alnums(ToLowerCase(title)) == ""
  {
    SlugifyKeepsAlnums(title);
    var s := Slugify(title);
    if s != "" {
      assert s[0] != '-' && IsSlugChar(s[0]);
      assert Alnums(s) != "" by {
        assert Alnums(s) == [s[0]] + Alnums(s[1..]);
      }
    }
  }

  // ---------------------------------------------------------------------------
  // The slug is the title's words joined by single dashes

  /**
   * The pieces of `s` between characters outside `[a-z0-9]`, empty pieces
   * included (what splitting on every single separator character gives).
   */
  function Pieces(s: string): (r: seq<string>)
    ensures |r| >= 1
  {
    if s == [] then [""]
    else if !IsSlugChar(s[0]) then [""] + Pieces(s[1..])
    else var rest := Pieces(s[1..]); [[s[0]] + rest[0]] + rest[1..]
  }

  function NonEmpty(ws: seq<string>): seq<string> {
    if ws == [] then [] else (if ws[0] == "" then [] else [ws[0]]) + NonEmpty(ws[1..])
  }

  /** The maximal runs of `[a-z0-9]` in `s`, in order. */
  function Words(s: string): seq<string> {
    NonEmpty(Pieces(s))
  }

  /** `words.join('-')`. */
  function JoinDash(ws: seq<string>): string {
    if ws == [] then "" else if |ws| == 1 then ws[0] else ws[0] + "-" + JoinDash(ws[1..])
  }

  lemma {:induction false} NonEmptyAppend(x: seq<string>, y: seq<string>)
    ensures NonEmpty(x + y) == NonEmpty(x) + NonEmpty(y)
    decreases |x|
  {
    if x == [] {
      assert x + y == y;
    } else {
      assert (x + y)[0] == x[0];
      assert (x + y)[1..] == x[1..] + y;
      NonEmptyAppend(x[1..], y);
    }
  }

  /** One separator character splits the pieces in two. */
  lemma {:induction false} PiecesAtSeparator(a: string, c: char, b: string)
    requires !IsSlugChar(c)
    ensures Pieces(a + [c] + b) == Pieces(a) + Pieces(b)
    decreases |a|
  {
    var s := a + [c] + b;
    if a == [] {
      assert s == [c] + b;
      assert s[1..] == b;
    } else {
      assert s[0] == a[0];
      assert s[1..] == a[1..] + [c] + b;
      PiecesAtSeparator(a[1..], c, b);
    }
  }

  lemma {:induction false} WordsSkip(s: string)
    ensures Words(SkipSeparators(s)) == Words(s)
    decreases |s|
  {
    if s != [] && !IsSlugChar(s[0]) {
      WordsSkip(s[1..]);
      assert NonEmpty([""] + Pieces(s[1..])) == NonEmpty(Pieces(s[1..])) by {
        assert ([""] + Pieces(s[1..]))[1..] == Pieces(s[1..]);
      }
    }
  }

  lemma WordsUnfold(s: string)
    ensures Words(s) == (if Pieces(s)[0] == "" then [] else [Pieces(s)[0]]) + NonEmpty(Pieces(s)[1..])
  {
  }

  /** Collapsing keeps the first piece and every later non-empty piece. */
  lemma {:induction false} PiecesCollapse(s: string)
    ensures Pieces(CollapseSeparators(s))[0] == Pieces(s)[0]
    ensures NonEmpty(Pieces(CollapseSeparators(s))[1..]) == NonEmpty(Pieces(s)[1..])
    decreases |s|
  {
    var r := CollapseSeparators(s);
    if s == [] {
    } else if IsSlugChar(s[0]) {
      PiecesCollapse(s[1..]);
      assert r[0] == s[0] && r[1..] == CollapseSeparators(s[1..]);
    } else {
      var k := SkipSeparators(s);
      var rk := CollapseSeparators(k);
      assert r == "-" + rk;
      assert r[0] == '-' && r[1..] == rk;
      assert Pieces(r) == [""] + Pieces(rk);
      assert Pieces(r)[1..] == Pieces(rk);
      PiecesCollapse(k);
      WordsUnfold(rk);
      WordsUnfold(k);
      WordsSkip(s);
      assert Pieces(s)[1..] == Pieces(s[1..]);
    }
  }

  lemma WordsCollapse(s: string)
    ensures Words(CollapseSeparators(s)) == Words(s)
  {
    PiecesCollapse(s);
    WordsUnfold(s);
    WordsUnfold(CollapseSeparators(s));
  }

  /** A separator character at either end splits off only an empty piece. */
  lemma WordsEdgeSeparator(s: string)
    requires s != []
    ensures !IsSlugChar(s[0]) ==> Words(s) == Words(s[1..])
    ensures !IsSlugChar(s[|s| - 1]) ==> Words(s) == Words(s[..|s| - 1])
  {
    if !IsSlugChar(s[0]) {
      var ps := Pieces(s);
      assert ps == [""] + Pieces(s[1..]);
      assert ps[0] == "" && ps[1..] == Pieces(s[1..]);
    }
    var init, last := s[..|s| - 1], s[|s| - 1];
    if !IsSlugChar(last) {
      PiecesAtSeparator(init, last, []);
      assert init + [last] + [] == s;
      NonEmptyAppend(Pieces(init), [""]);
      assert NonEmpty([""]) == [] by {
        assert [""][1..] == [];
      }
    }
  }

  lemma WordsStrip(s: string)
    ensures Words(StripEdgeDashes(s)) == Words(s)
  {
    var a := if s != [] && s[0] == '-' then s[1..] else s;
    if s != [] {
      WordsEdgeSeparator(s);
    }
    if a != [] {
      WordsEdgeSeparator(a);
    }
  }

  /** Slug derivation keeps the title's words: the maximal `[a-z0-9]` runs of the lower-cased title. */
  lemma SlugifyKeepsWords(title: string)
    ensures Words(Slugify(title)) == Words(ToLowerCase(title))
  {
    WordsCollapse(ToLowerCase(title));
    WordsStrip(CollapseSeparators(ToLowerCase(title)));
  }

  function IndexOfDash(s: string): (i: nat)
    ensures i <= |s|
    ensures forall j :: 0 <= j < i ==> s[j] != '-'
    ensures i < |s| ==> s[i] == '-'
  {
    if s == [] || s[0] == '-' then 0 else 1 + IndexOfDash(s[1..])
  }

  lemma {:induction false} PiecesOfWord(a: string)
    requires forall j :: 0 <= j < |a| ==> IsSlugChar(a[j])
    ensures Pieces(a) == [a]
    decreases |a|
  {
    if a != [] {
      PiecesOfWord(a[1..]);
      assert [a[0]] + a[1..] == a;
    }
  }

  /** A well-formed slug is its own words joined by single dashes. */
  lemma {:induction false} WellFormedIsJoinedWords(s: string)
    requires WellFormedSlug(s)
    ensures JoinDash(Words(s)) == s
    decreases |s|
  {
    var d := IndexOfDash(s);
    if d == |s| {
      PiecesOfWord(s);
      if s != [] {
        assert Words(s) == [s] + NonEmpty([]);
      }
    } else {
      var a, b := s[..d], s[d + 1..];
      assert s == a + ['-'] + b;
      assert 0 < d < |s| - 1;
      assert !DoubleDashAt(s, d);
      assert b[0] != '-' && IsSlugChar(b[0]);
      NoDoubleDashDrop(s, d + 1);
      WellFormedIsJoinedWords(b);
      PiecesAtSeparator(a, '-', b);
      PiecesOfWord(a);
      NonEmptyAppend([a], Pieces(b));
      assert NonEmpty([a]) == [a];
      assert Words(s) == [a] + Words(b);
      assert Words(b) != [] by {
        WordsUnfold(b);
        assert Pieces(b)[0] != "";
      }
      assert ([a] + Words(b))[1..] == Words(b);
    }
  }

  /**
   * The slug is exactly the words of the lower-cased title (its maximal
   * `[a-z0-9]` runs) joined by single dashes.
   */
  lemma SlugifyIsJoinedWords(title: string)
    ensures Slugify(title) == JoinDash(Words(ToLowerCase(title)))
  {
    WellFormedIsJoinedWords(Slugify(title));
    SlugifyKeepsWords(title);
  }
}
