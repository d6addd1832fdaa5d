/**
 * The JavaScript string built-ins the blog front end and API rely on:
 * truthiness of optional fields, `toLowerCase`/`toUpperCase` (on ASCII
 * letters), the whitespace set used by `trim` and by `\s` in regular
 * expressions, and `trim` itself.
 */
module JsText {

  datatype Option<+T> = None | Some(value: T)

  /** JavaScript truthiness of an optional string field: absent and "" are falsy. */
  predicate Truthy(s: Option<string>) {
    s.Some? && s.value != ""
  }

  /** `s || fallback` for an optional string field. */
  function OrElse(s: Option<string>, fallback: string): (r: string)
    ensures Truthy(s) ==> r == s.value
    ensures !Truthy(s) ==> r == fallback
  {
    if Truthy(s) then s.value else fallback
  }

  predicate IsUpperAscii(c: char) { 'A' <= c <= 'Z' }
  predicate IsLowerAscii(c: char) { 'a' <= c <= 'z' }

  /** `toLowerCase` on one character (ASCII letters only). */
  function LowerChar(c: char): char {
    if IsUpperAscii(c) then (c as int + 32) as char else c
  }

  /** `toUpperCase` on one character (ASCII letters only). */
  function UpperChar(c: char): char {
    if IsLowerAscii(c) then (c as int - 32) as char else c
  }

  /** String.prototype.toLowerCase, restricted to ASCII case mapping. */
  function ToLowerCase(s: string): (r: string)
    ensures |r| == |s|
    ensures forall i :: 0 <= i < |s| ==> r[i] == LowerChar(s[i])
  {
    seq(|s|, i requires 0 <= i < |s| => LowerChar(s[i]))
  }

  /** Lower-casing a lower-cased string changes nothing. */
  lemma LowerCaseIdempotent(s: string)
    ensures ToLowerCase(ToLowerCase(s)) == ToLowerCase(s)
  {
    var l := ToLowerCase(s);
    forall i | 0 <= i < |l| ensures LowerChar(l[i]) == l[i] {
      assert !IsUpperAscii(l[i]);
    }
  }

  /** A string is its own lower-case form exactly when it holds no `A`-`Z`. */
  lemma LowerCaseUnchangedIff(s: string)
    ensures ToLowerCase(s) == s <==> forall i :: 0 <= i < |s| ==> !IsUpperAscii(s[i])
  {
    if ToLowerCase(s) == s {
      forall i | 0 <= i < |s| ensures !IsUpperAscii(s[i]) {
        assert LowerChar(s[i]) == s[i];
      }
    }
  }

  /** String.prototype.toUpperCase, restricted to ASCII case mapping. */
  function ToUpperCase(s: string): (r: string)
    ensures |r| == |s|
    ensures forall i :: 0 <= i < |s| ==> r[i] == UpperChar(s[i])
  {
    seq(|s|, i requires 0 <= i < |s| => UpperChar(s[i]))
  }

  /**
   * The ECMAScript WhiteSpace and LineTerminator code points: exactly the
   * characters `trim` removes and `\s` matches.
   */
  predicate IsWhitespace(c: char) {
    || c == '\t' || c == '\n' || c == '\U{000B}' || c == '\U{000C}' || c == '\r'
    || c == ' ' || c == '\U{00A0}' || c == '\U{1680}'
    || ('\U{2000}' <= c <= '\U{200A}')
    || c == '\U{2028}' || c == '\U{2029}' || c == '\U{202F}' || c == '\U{205F}'
    || c == '\U{3000}' || c == '\U{FEFF}'
  }

  predicate AllWhitespace(s: string) {
    forall i :: 0 <= i < |s| ==> IsWhitespace(s[i])
  }

  lemma LowerCharKeepsWhitespace(c: char)
    ensures IsWhitespace(LowerChar(c)) <==> IsWhitespace(c)
  {
  }

  /**
   * `String.prototype.trim`: whitespace is removed from the front, then from
   * the back, until neither end is whitespace; what is left is a slice of `s`.
   */
  function Trim(s: string): (r: string)
    ensures r == [] || (!IsWhitespace(r[0]) && !IsWhitespace(r[|r| - 1]))
    ensures |r| <= |s|
    decreases |s|
  {
    if s == [] then []
    else if IsWhitespace(s[0]) then Trim(s[1..])
    else if IsWhitespace(s[|s| - 1]) then Trim(s[..|s| - 1])
    else s
  }

  /** `trim` gives "" exactly when every character is whitespace. */
  lemma {:induction false} TrimEmptyIff(s: string)
    ensures Trim(s) == "" <==> forall i :: 0 <= i < |s| ==> IsWhitespace(s[i])
    decreases |s|
  {
    if s == [] {
    } else if IsWhitespace(s[0]) {
      TrimEmptyIff(s[1..]);
      assert forall i :: 1 <= i < |s| ==> s[i] == s[1..][i - 1];
    } else if IsWhitespace(s[|s| - 1]) {
      var init := s[..|s| - 1];
      TrimEmptyIff(init);
      assert init[0] == s[0];
    }
  }

  lemma AllWhitespaceAppend(a: string, b: string)
    requires AllWhitespace(a) && AllWhitespace(b)
    ensures AllWhitespace(a + b)
  {
    var u := a + b;
    forall k | 0 <= k < |u| ensures IsWhitespace(u[k]) {
      if k < |a| { assert u[k] == a[k]; } else { assert u[k] == b[k - |a|]; }
    }
  }

  /** `s[i..j]` is what is left of `s` once whitespace is cut from both ends. */
  predicate WhitespaceAround(s: string, i: nat, j: nat) {
    i <= j <= |s| && AllWhitespace(s[..i]) && AllWhitespace(s[j..])
  }

  lemma WhitespaceAroundFront(s: string, i: nat, j: nat)
    requires s != [] && IsWhitespace(s[0]) && WhitespaceAround(s[1..], i, j)
    ensures WhitespaceAround(s, i + 1, j + 1) && s[i + 1..j + 1] == s[1..][i..j]
  {
    var t := s[1..];
    assert s[i + 1..j + 1] == t[i..j] by {
      assert |s[i + 1..j + 1]| == |t[i..j]|;
      forall k | 0 <= k < |t[i..j]| ensures s[i + 1..j + 1][k] == t[i..j][k] {}
    }
    assert s[j + 1..] == t[j..] by {
      assert |s[j + 1..]| == |t[j..]|;
      forall k | 0 <= k < |t[j..]| ensures s[j + 1..][k] == t[j..][k] {}
    }
    assert s[..i + 1] == [s[0]] + t[..i];
    AllWhitespaceAppend([s[0]], t[..i]);
  }

  lemma WhitespaceAroundBack(s: string, i: nat, j: nat)
    requires s != [] && IsWhitespace(s[|s| - 1]) && WhitespaceAround(s[..|s| - 1], i, j)
    ensures WhitespaceAround(s, i, j) && s[i..j] == s[..|s| - 1][i..j]
  {
    var t := s[..|s| - 1];
    assert s[..i] == t[..i];
    assert s[j..] == t[j..] + [s[|s| - 1]];
    AllWhitespaceAppend(t[j..], [s[|s| - 1]]);
  }

  /**
   * `trim` removes only whitespace, and only at the ends: the result is the
   * slice `s[i..j]`, and everything before `i` and from `j` on is whitespace.
   */
  lemma {:induction false} TrimIsSlice(s: string) returns (i: nat, j: nat)
    ensures WhitespaceAround(s, i, j) && Trim(s) == s[i..j]
    decreases |s|
  {
    if s == [] {
      i, j := 0, 0;
    } else if IsWhitespace(s[0]) {
      var i', j' := TrimIsSlice(s[1..]);
      WhitespaceAroundFront(s, i', j');
      i, j := i' + 1, j' + 1;
    } else if IsWhitespace(s[|s| - 1]) {
      i, j := TrimIsSlice(s[..|s| - 1]);
      WhitespaceAroundBack(s, i, j);
    } else {
      i, j := 0, |s|;
      assert s[0..|s|] == s;
    }
  }
}
