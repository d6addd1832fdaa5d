/**
 * `Array.prototype.filter` and `Array.prototype.map` over sequences, with
 * a characterisation of `filter` by position: the k-th kept element is the
 * input element that has exactly k kept elements before it.
 */
module Seqs {

  /** Number of elements of `s` satisfying `p`. */
  function Count<T>(p: T -> bool, s: seq<T>): (n: nat)
    ensures n <= |s|
  {
    if s == [] then 0 else Count(p, s[..|s| - 1]) + (if p(s[|s| - 1]) then 1 else 0)
  }

  /** `s.filter(p)`. */
  function Keep<T>(p: T -> bool, s: seq<T>): (r: seq<T>)
    ensures |r| == Count(p, s)
    ensures forall k :: 0 <= k < |r| ==> p(r[k]) && r[k] in s
  {
    if s == [] then [] else Keep(p, s[..|s| - 1]) + (if p(s[|s| - 1]) then [s[|s| - 1]] else [])
  }

  /** `s.map(f)`. */
  function Map<A, B>(f: A -> B, s: seq<A>): (r: seq<B>)
    ensures |r| == |s|
    ensures forall k :: 0 <= k < |s| ==> r[k] == f(s[k])
  {
    if s == [] then [] else Map(f, s[..|s| - 1]) + [f(s[|s| - 1])]
  }

  lemma {:induction false} KeepAppend<T>(p: T -> bool, a: seq<T>, b: seq<T>)
    ensures Keep(p, a + b) == Keep(p, a) + Keep(p, b)
    decreases |b|
  {
    if b == [] {
      assert a + b == a;
    } else {
      assert (a + b)[..|a + b| - 1] == a + b[..|b| - 1];
      KeepAppend(p, a, b[..|b| - 1]);
    }
  }

  /** A kept element sits, in the result, after exactly the kept elements that precede it. */
  lemma {:induction false} KeepAt<T>(p: T -> bool, s: seq<T>, i: nat)
    requires i < |s| && p(s[i])
    ensures Count(p, s[..i]) < |Keep(p, s)|
    ensures Keep(p, s)[Count(p, s[..i])] == s[i]
  {
    assert s == s[..i] + [s[i]] + s[i + 1..];
    KeepAppend(p, s[..i] + [s[i]], s[i + 1..]);
    KeepAppend(p, s[..i], [s[i]]);
    assert Keep(p, [s[i]]) == [s[i]] by {
      assert [s[i]][..0] == [];
    }
  }

  /** Every element of the result is a kept input element, placed by its rank: `i` is that element's index in `s`. */
  lemma {:induction false} KeepFrom<T>(p: T -> bool, s: seq<T>, k: nat) returns (i: nat)
    requires k < |Keep(p, s)|
    ensures i < |s| && p(s[i]) && Count(p, s[..i]) == k && Keep(p, s)[k] == s[i]
    decreases |s|
  {
    var n := |s| - 1;
    assert s[..n] == s[..|s| - 1];
    if k < |Keep(p, s[..n])| {
      i := KeepFrom(p, s[..n], k);
      assert s[..n][..i] == s[..i];
    } else {
      i := n;
      assert p(s[n]) && k == Count(p, s[..n]);
    }
  }

  /** A filter whose predicate holds everywhere keeps the input as it is. */
  lemma {:induction false} KeepAll<T>(p: T -> bool, s: seq<T>)
    requires forall k :: 0 <= k < |s| ==> p(s[k])
    ensures Keep(p, s) == s
    decreases |s|
  {
    if s != [] {
      var init := s[..|s| - 1];
      assert forall k :: 0 <= k < |init| ==> p(init[k]) by {
        forall k | 0 <= k < |init| ensures p(init[k]) { assert init[k] == s[k]; }
      }
      KeepAll(p, init);
      assert s == init + [s[|s| - 1]];
    }
  }

  /** A filter whose predicate holds nowhere keeps nothing. */
  lemma {:induction false} KeepNone<T>(p: T -> bool, s: seq<T>)
    requires forall k :: 0 <= k < |s| ==> !p(s[k])
    ensures Keep(p, s) == []
    decreases |s|
  {
    if s != [] {
      var init := s[..|s| - 1];
      assert forall k :: 0 <= k < |init| ==> !p(init[k]) by {
        forall k | 0 <= k < |init| ensures !p(init[k]) { assert init[k] == s[k]; }
      }
      KeepNone(p, init);
    }
  }

  lemma {:induction false} KeepCons<T>(p: T -> bool, x: T, s: seq<T>)
    ensures Keep(p, [x] + s) == (if p(x) then [x] else []) + Keep(p, s)
  {
    KeepAppend(p, [x], s);
    assert [x][..0] == [];
    assert Keep(p, [x]) == Keep(p, []) + (if p(x) then [x] else []);
  }

  lemma {:induction false} MapAppend<A, B>(f: A -> B, a: seq<A>, b: seq<A>)
    ensures Map(f, a + b) == Map(f, a) + Map(f, b)
  {
  }
}
