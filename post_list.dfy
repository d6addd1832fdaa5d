/**
 * The home page's post list: filtering by the selected category and sorting
 * a copy of the filtered list by the selected key. `Array.prototype.sort` is
 * stable, so the sort is modelled as a stable insertion sort by the integer
 * rank the comparator compares.
 */
module PostList {
  import opened JsText
  import opened Seqs

  /** The fields of a listed post that the list logic reads; dates are epoch milliseconds. */
  datatype Post = Post(id: string, title: string, publishedAt: int, category: Option<string>, views: Option<int>)

  /** The page's two pieces of state. */
  datatype HomeState = HomeState(selectedCategory: string, sortBy: string)

  /** The page starts on every category, newest first. */
  const InitialHome: HomeState := HomeState("all", "latest")

  // ---------------------------------------------------------------------------
  // Filtering

  function InCategory(category: string): Post -> bool {
    (p: Post) => p.category == Some(category)
  }

  /** `all` keeps the list; any other selection keeps the posts of exactly that category. */
  function FilterPosts(posts: seq<Post>, selected: string): (r: seq<Post>)
    ensures selected == "all" ==> r == posts
    ensures selected != "all" ==> forall k :: 0 <= k < |r| ==> r[k].category == Some(selected) && r[k] in posts
    ensures |r| <= |posts|
  {
    if selected == "all" then posts else Keep(InCategory(selected), posts)
  }

  /**
   * Under a category other than `all`, each post of that category is kept,
   * after exactly the kept posts that precede it in the input.
   */
  lemma FilterKeepsEachMatch(posts: seq<Post>, selected: string, i: nat)
    requires selected != "all" && i < |posts| && posts[i].category == Some(selected)
    ensures var k := Count(InCategory(selected), posts[..i]);
      k < |FilterPosts(posts, selected)| && FilterPosts(posts, selected)[k] == posts[i]
  {
    KeepAt(InCategory(selected), posts, i);
  }

  predicate FilteredFrom(posts: seq<Post>, selected: string, k: nat, i: int) {
    && 0 <= i < |posts|
    && posts[i].category == Some(selected)
    && Count(InCategory(selected), posts[..i]) == k
    && k < |FilterPosts(posts, selected)|
    && FilterPosts(posts, selected)[k] == posts[i]
  }

  /** Each filtered post is an input post of the selected category, in input order. */
  lemma FilterOnlyMatches(posts: seq<Post>, selected: string, k: nat)
    requires selected != "all" && k < |FilterPosts(posts, selected)|
    ensures exists i :: FilteredFrom(posts, selected, k, i)
  {
    var i := KeepFrom(InCategory(selected), posts, k);
    assert FilteredFrom(posts, selected, k, i);
  }

  // ---------------------------------------------------------------------------
  // Sorting

  datatype SortKey = Latest | Oldest | Popular | Unordered

  function SortKeyOf(sortBy: string): SortKey {
    if sortBy == "latest" then Latest
    else if sortBy == "oldest" then Oldest
    else if sortBy == "popular" then Popular
    else Unordered
  }

  /** The view count, a missing count read as 0. */
  function ViewsOrZero(p: Post): int {
    if p.views.Some? then p.views.value else 0
  }

  /**
   * The comparator passed to `sort`: negative puts `a` first, positive puts
   * `b` first. Each is the difference of a rank, so it is a consistent total
   * preorder.
   */
  function Compare(key: SortKey, a: Post, b: Post): (r: int)
    ensures r == Rank(key, a) - Rank(key, b)
  {
    match key
    case Latest => b.publishedAt - a.publishedAt
    case Oldest => a.publishedAt - b.publishedAt
    case Popular => ViewsOrZero(b) - ViewsOrZero(a)
    case Unordered => 0
  }

  /** The quantity the comparator compares: the post with the smaller rank goes first. */
  function Rank(key: SortKey, p: Post): int {
    match key
    case Latest => -p.publishedAt
    case Oldest => p.publishedAt
    case Popular => -ViewsOrZero(p)
    case Unordered => 0
  }

  /** The comparator of a key as the rank it compares. */
  function RankOf(key: SortKey): Post -> int {
    (p: Post) => Rank(key, p)
  }

  /** Ranks never decrease along `s`. */
  predicate SortedBy(rank: Post -> int, s: seq<Post>) {
    forall i, j :: 0 <= i < j < |s| ==> rank(s[i]) <= rank(s[j])
  }

  lemma SortedTail(rank: Post -> int, s: seq<Post>)
    requires SortedBy(rank, s) && s != []
    ensures SortedBy(rank, s[1..])
  {
    var t := s[1..];
    forall i, j | 0 <= i < j < |t| ensures rank(t[i]) <= rank(t[j]) {
      assert t[i] == s[i + 1] && t[j] == s[j + 1];
    }
  }

  /** The posts of rank `v`, in the order they appear. */
  function OfRank(rank: Post -> int, v: int, s: seq<Post>): (r: seq<Post>)
    ensures forall k :: 0 <= k < |r| ==> rank(r[k]) == v
    ensures |r| <= |s|
  {
    if s == [] then []
    else (if rank(s[0]) == v then [s[0]] else []) + OfRank(rank, v, s[1..])
  }

  /** Stability: the posts of every rank keep their input order. */
  ghost predicate StableOrder(rank: Post -> int, s: seq<Post>, r: seq<Post>) {
    forall v :: OfRank(rank, v, r) == OfRank(rank, v, s)
  }

  /** Inserts `x` in front of the first post whose rank is not below its own. */
  function Insert(rank: Post -> int, x: Post, s: seq<Post>): (r: seq<Post>)
    ensures |r| == |s| + 1
  {
    if s == [] then [x]
    else if rank(x) <= rank(s[0]) then [x] + s
    else [s[0]] + Insert(rank, x, s[1..])
  }

  lemma {:induction false} InsertPermutes(rank: Post -> int, x: Post, s: seq<Post>)
    ensures multiset(Insert(rank, x, s)) == multiset(s) + multiset{x}
    decreases |s|
  {
    if s != [] && rank(x) > rank(s[0]) {
      InsertPermutes(rank, x, s[1..]);
      assert s == [s[0]] + s[1..];
    }
  }

  /** Insertion keeps a lower bound that both the list and the inserted post respect. */
  lemma {:induction false} InsertLowerBound(rank: Post -> int, lo: int, x: Post, s: seq<Post>)
    requires lo <= rank(x)
    requires forall k :: 0 <= k < |s| ==> lo <= rank(s[k])
    ensures forall k :: 0 <= k < |Insert(rank, x, s)| ==> lo <= rank(Insert(rank, x, s)[k])
    decreases |s|
  {
    if s != [] && rank(x) > rank(s[0]) {
      InsertLowerBound(rank, lo, x, s[1..]);
      var t := Insert(rank, x, s[1..]);
      assert Insert(rank, x, s) == [s[0]] + t;
    }
  }

  lemma {:induction false} InsertSorted(rank: Post -> int, x: Post, s: seq<Post>)
    requires SortedBy(rank, s)
    ensures SortedBy(rank, Insert(rank, x, s))
    decreases |s|
  {
    if s != [] && rank(x) > rank(s[0]) {
      var t := Insert(rank, x, s[1..]);
      SortedTail(rank, s);
      InsertSorted(rank, x, s[1..]);
      InsertLowerBound(rank, rank(s[0]), x, s[1..]);
      var r := Insert(rank, x, s);
      assert r == [s[0]] + t;
      forall i, j | 0 <= i < j < |r| ensures rank(r[i]) <= rank(r[j]) {
        assert r[j] == t[j - 1];
        if i > 0 { assert r[i] == t[i - 1]; }
      }
    }
  }

  /** A stable insertion sort by rank. */
  function SortBy(rank: Post -> int, s: seq<Post>): (r: seq<Post>)
    ensures |r| == |s|
  {
    if s == [] then [] else Insert(rank, s[0], SortBy(rank, s[1..]))
  }

  /** The sort of a copy of the filtered list: the stable sort by the key's rank. */
  function SortPosts(key: SortKey, s: seq<Post>): (r: seq<Post>)
    ensures |r| == |s| && multiset(r) == multiset(s)
    ensures SortedBy(RankOf(key), r)
    ensures StableOrder(RankOf(key), s, r)
  {
    SortIsSortedPermutation(RankOf(key), s);
    SortIsStable(RankOf(key), s);
    SortBy(RankOf(key), s)
  }

  /** The sort returns its input in order of rank: a sorted permutation. */
  lemma {:induction false} SortIsSortedPermutation(rank: Post -> int, s: seq<Post>)
    ensures SortedBy(rank, SortBy(rank, s))
    ensures multiset(SortBy(rank, s)) == multiset(s)
    decreases |s|
  {
    if s != [] {
      SortIsSortedPermutation(rank, s[1..]);
      InsertSorted(rank, s[0], SortBy(rank, s[1..]));
      InsertPermutes(rank, s[0], SortBy(rank, s[1..]));
      assert s == [s[0]] + s[1..];
    }
  }

  lemma OfRankCons(rank: Post -> int, v: int, x: Post, s: seq<Post>)
    ensures OfRank(rank, v, [x] + s) == (if rank(x) == v then [x] else []) + OfRank(rank, v, s)
  {
    assert ([x] + s)[0] == x && ([x] + s)[1..] == s;
  }

  lemma {:induction false} OfRankInsert(rank: Post -> int, v: int, x: Post, s: seq<Post>)
    requires SortedBy(rank, s)
    ensures OfRank(rank, v, Insert(rank, x, s)) == (if rank(x) == v then [x] else []) + OfRank(rank, v, s)
    decreases |s|
  {
    if s == [] {
      OfRankCons(rank, v, x, []);
      assert [x] + [] == [x];
    } else if rank(x) <= rank(s[0]) {
      OfRankCons(rank, v, x, s);
    } else {
      SortedTail(rank, s);
      OfRankInsert(rank, v, x, s[1..]);
      var t := Insert(rank, x, s[1..]);
      assert Insert(rank, x, s) == [s[0]] + t;
      OfRankCons(rank, v, s[0], t);
      OfRankCons(rank, v, s[0], s[1..]);
      assert s == [s[0]] + s[1..];
      if rank(x) == v {
        // `x` outranks the head, so the head is not of rank `v`
        assert OfRank(rank, v, [s[0]] + t) == OfRank(rank, v, t);
        assert OfRank(rank, v, s) == OfRank(rank, v, s[1..]);
      } else {
        assert OfRank(rank, v, t) == OfRank(rank, v, s[1..]);
      }
    }
  }

  /** The sort is stable: the posts of each rank appear in the order they had. */
  lemma {:induction false} SortIsStable(rank: Post -> int, s: seq<Post>)
    ensures StableOrder(rank, s, SortBy(rank, s))
    decreases |s|
  {
    if s != [] {
      SortIsStable(rank, s[1..]);
      SortIsSortedPermutation(rank, s[1..]);
      forall v ensures OfRank(rank, v, SortBy(rank, s)) == OfRank(rank, v, s) {
        OfRankInsert(rank, v, s[0], SortBy(rank, s[1..]));
      }
    }
  }

  /** A list already in order comes back unchanged. */
  lemma {:induction false} SortKeepsSortedInput(rank: Post -> int, s: seq<Post>)
    requires SortedBy(rank, s)
    ensures SortBy(rank, s) == s
    decreases |s|
  {
    if s != [] {
      var t := s[1..];
      SortedTail(rank, s);
      SortKeepsSortedInput(rank, t);
      if t != [] {
        assert rank(s[0]) <= rank(s[1]);
      }
      assert s == [s[0]] + t;
    }
  }

  /** Along the sorted list the comparator never asks for a swap: `compare(a, b) <= 0` whenever `a` comes first. */
  lemma SortAgreesWithComparator(key: SortKey, s: seq<Post>)
    ensures var r := SortPosts(key, s);
      forall i, j :: 0 <= i < j < |r| ==> Compare(key, r[i], r[j]) <= 0
  {
    var r := SortPosts(key, s);
    forall i, j | 0 <= i < j < |r| ensures Compare(key, r[i], r[j]) <= 0 {
      assert RankOf(key)(r[i]) <= RankOf(key)(r[j]);
    }
  }

  /** Under any sort key other than the three known ones all posts compare equal, and the stable sort keeps the filtered order. */
  lemma UnknownKeyKeepsOrder(s: seq<Post>)
    ensures SortPosts(Unordered, s) == s
  {
    SortKeepsSortedInput(RankOf(Unordered), s);
  }

  // ---------------------------------------------------------------------------
  // What the page shows

  function VisiblePosts(posts: seq<Post>, state: HomeState): (r: seq<Post>)
    ensures multiset(r) == multiset(FilterPosts(posts, state.selectedCategory))
    ensures SortedBy(RankOf(SortKeyOf(state.sortBy)), r)
  {
    SortPosts(SortKeyOf(state.sortBy), FilterPosts(posts, state.selectedCategory))
  }

  /** `latest`: publication dates never increase along the list. */
  lemma LatestIsNewestFirst(posts: seq<Post>, selected: string)
    ensures var r := VisiblePosts(posts, HomeState(selected, "latest"));
      forall i, j :: 0 <= i < j < |r| ==> r[i].publishedAt >= r[j].publishedAt
  {
    var r := VisiblePosts(posts, HomeState(selected, "latest"));
    forall i, j | 0 <= i < j < |r| ensures r[i].publishedAt >= r[j].publishedAt {
      assert RankOf(Latest)(r[i]) <= RankOf(Latest)(r[j]);
    }
  }

  /** `oldest`: publication dates never decrease along the list. */
  lemma OldestIsOldestFirst(posts: seq<Post>, selected: string)
    ensures var r := VisiblePosts(posts, HomeState(selected, "oldest"));
      forall i, j :: 0 <= i < j < |r| ==> r[i].publishedAt <= r[j].publishedAt
  {
    var r := VisiblePosts(posts, HomeState(selected, "oldest"));
    forall i, j | 0 <= i < j < |r| ensures r[i].publishedAt <= r[j].publishedAt {
      assert RankOf(Oldest)(r[i]) <= RankOf(Oldest)(r[j]);
    }
  }

  /** `popular`: view counts, a missing count read as 0, never increase along the list. */
  lemma PopularIsMostViewedFirst(posts: seq<Post>, selected: string)
    ensures var r := VisiblePosts(posts, HomeState(selected, "popular"));
      forall i, j :: 0 <= i < j < |r| ==> ViewsOrZero(r[i]) >= ViewsOrZero(r[j])
  {
    var r := VisiblePosts(posts, HomeState(selected, "popular"));
    forall i, j | 0 <= i < j < |r| ensures ViewsOrZero(r[i]) >= ViewsOrZero(r[j]) {
      assert RankOf(Popular)(r[i]) <= RankOf(Popular)(r[j]);
    }
  }

  /**
   * On first render every post is shown; when the store delivers the posts
   * newest first, as the list query orders them, the page shows them as delivered.
   */
  lemma InitialViewShowsDeliveredOrder(posts: seq<Post>)
    requires forall i, j :: 0 <= i < j < |posts| ==> posts[i].publishedAt >= posts[j].publishedAt
    ensures VisiblePosts(posts, InitialHome) == posts
  {
    SortKeepsSortedInput(RankOf(Latest), posts);
  }
}
