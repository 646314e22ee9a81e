/** The selection logic of the blog section (app/components/Blog.tsx): the newest-first
    ordering of all posts, the featured post, the category-and-search filter of the grid,
    the featured post's own visibility test, and `shuffleArray`. The post arrays of the
    component are the parameters `blogPosts` and `startupPosts`. */
module BlogListing {
  import opened Collections
  import opened Sorting
  import opened Text

  /** The `BlogPost` interface of the component; `date` is a timestamp. */
  datatype Post = Post(
    id: string,
    title: string,
    excerpt: string,
    date: int,
    category: string,
    readTime: string,
    image: Option<string>,
    tags: seq<string>,
    slug: string)

  /** What the section shows: the featured article (if it passes the filter) and the grid. */
  datatype Listing = Listing(featured: Option<Post>, grid: seq<Post>)

  /** The id of the post the section features when it is present. */
  const FeaturedId: string := "fusion-rag"

  /** The grid holds at most this many posts besides the featured one. */
  const GridSize: int := 5

  function PostDate(p: Post): int { p.date }

  // ---------------------------------------------------------------------------
  // Newest first
  // ---------------------------------------------------------------------------

  /** `[...blogPosts, ...startupPosts].sort((a, b) => date(b) - date(a))` */
  function SortedPosts(blogPosts: seq<Post>, startupPosts: seq<Post>): (r: seq<Post>)
    ensures |r| == |blogPosts| + |startupPosts|
    ensures multiset(r) == multiset(blogPosts + startupPosts)
    ensures SortedDesc(r, PostDate)
  {
    SortDesc(blogPosts + startupPosts, PostDate)
  }

  /** The sorted list is a permutation of the two arrays one after the other, newest first,
      and posts of the same date keep their order in the concatenation. */
  lemma SortedPostsOrder(blogPosts: seq<Post>, startupPosts: seq<Post>)
    ensures multiset(SortedPosts(blogPosts, startupPosts)) == multiset(blogPosts + startupPosts)
    ensures |SortedPosts(blogPosts, startupPosts)| == |blogPosts| + |startupPosts|
    ensures SortedDesc(SortedPosts(blogPosts, startupPosts), PostDate)
    ensures forall d :: WithKey(SortedPosts(blogPosts, startupPosts), PostDate, d)
                          == WithKey(blogPosts + startupPosts, PostDate, d)
  {
    forall d
      ensures WithKey(SortedPosts(blogPosts, startupPosts), PostDate, d)
           == WithKey(blogPosts + startupPosts, PostDate, d)
    {
      SortDescStable(blogPosts + startupPosts, PostDate, d);
    }
  }

  // ---------------------------------------------------------------------------
  // The featured post
  // ---------------------------------------------------------------------------

  predicate HasFeaturedId(p: Post) { p.id == FeaturedId }

  /** `k` is the first post of `sorted` carrying the featured id. */
  ghost predicate IsFirstFeatured(sorted: seq<Post>, k: int)
  {
    0 <= k < |sorted| && sorted[k].id == FeaturedId
    && forall j :: 0 <= j < k ==> sorted[j].id != FeaturedId
  }

  /** `sortedPosts.find(post => post.id === "fusion-rag") || sortedPosts[0]`;
      `None` is `undefined`, which only an empty list gives. */
  function FeaturedPost(sorted: seq<Post>): (r: Option<Post>)
    ensures r.Some? <==> sorted != []
    ensures r.Some? ==> r.value in sorted
    ensures (exists i :: 0 <= i < |sorted| && sorted[i].id == FeaturedId) ==>
              exists k :: IsFirstFeatured(sorted, k) && r == Some(sorted[k])
    ensures (forall i :: 0 <= i < |sorted| ==> sorted[i].id != FeaturedId) && sorted != [] ==>
              r == Some(sorted[0])
  {
    match FindFirst(sorted, HasFeaturedId)
    case Some(k) =>
      assert IsFirstFeatured(sorted, k);
      Some(sorted[k])
    case None => if sorted == [] then None else Some(sorted[0])
  }

  // ---------------------------------------------------------------------------
  // The grid filter
  // ---------------------------------------------------------------------------

  /** `!activeCategory || post.category === activeCategory`: no category, or the empty
      one, selects every post. */
  predicate CategoryMatches(activeCategory: Option<string>, category: string)
  {
    activeCategory.None? || activeCategory.value == "" || category == activeCategory.value
  }

  /** The lower-cased query occurs in the lower-cased title, excerpt or some tag. */
  predicate SearchMatches(searchQuery: string, p: Post)
  {
    var q := Lower(searchQuery);
    || Includes(Lower(p.title), q)
    || Includes(Lower(p.excerpt), q)
    || exists i | 0 <= i < |p.tags| :: Includes(Lower(p.tags[i]), q)
  }

  /** `post.id !== featuredPost.id`. The filter only runs on a non-empty list, where the
      featured post exists. */
  predicate NotFeatured(featured: Option<Post>, p: Post)
  {
    featured.None? || p.id != featured.value.id
  }

  /** The predicate of the grid filter. */
  predicate Selected(activeCategory: Option<string>, searchQuery: string, featured: Option<Post>, p: Post)
  {
    CategoryMatches(activeCategory, p.category) && SearchMatches(searchQuery, p) && NotFeatured(featured, p)
  }

  function SelectedBy(activeCategory: Option<string>, searchQuery: string, featured: Option<Post>): Post -> bool
  {
    p => Selected(activeCategory, searchQuery, featured, p)
  }

  function NotFeaturedBy(featured: Option<Post>): Post -> bool
  {
    p => NotFeatured(featured, p)
  }

  /** `sortedPosts.filter(...).slice(0, 5)`: every post shown in the grid comes from the
      list and passes all three tests; there are at most five. */
  function FilteredPosts(sorted: seq<Post>, activeCategory: Option<string>, searchQuery: string,
                         featured: Option<Post>): (r: seq<Post>)
    ensures |r| <= GridSize
    ensures forall p :: p in r ==> p in sorted && Selected(activeCategory, searchQuery, featured, p)
  {
    var all := Filter(sorted, SelectedBy(activeCategory, searchQuery, featured));
    var r := SliceTo(all, GridSize);
    assert forall p :: p in r ==> p in all;
    r
  }

  /** The grid keeps the newest-first order of the list. */
  lemma FilteredPostsKeepOrder(sorted: seq<Post>, activeCategory: Option<string>, searchQuery: string,
                               featured: Option<Post>)
    ensures IsSubsequence(FilteredPosts(sorted, activeCategory, searchQuery, featured), sorted)
  {
    var all := Filter(sorted, SelectedBy(activeCategory, searchQuery, featured));
    FilterIsSubsequence(sorted, SelectedBy(activeCategory, searchQuery, featured));
    PrefixOfSubsequence(all, sorted, |FilteredPosts(sorted, activeCategory, searchQuery, featured)|);
  }

  /** A post that passes the filter is shown unless the grid is already full of posts that
      come before it in the list. */
  lemma FilteredPostsComplete(sorted: seq<Post>, activeCategory: Option<string>, searchQuery: string,
                              featured: Option<Post>, i: nat)
    requires i < |sorted| && Selected(activeCategory, searchQuery, featured, sorted[i])
    ensures || sorted[i] in FilteredPosts(sorted, activeCategory, searchQuery, featured)
            || (&& |FilteredPosts(sorted, activeCategory, searchQuery, featured)| == GridSize
                && FilteredPosts(sorted, activeCategory, searchQuery, featured)
                   == SliceTo(Filter(sorted[..i], SelectedBy(activeCategory, searchQuery, featured)), GridSize))
  {
    var sel := SelectedBy(activeCategory, searchQuery, featured);
    var before := Filter(sorted[..i], sel);
    var rest := Filter(sorted[i..], sel);
    assert sorted == sorted[..i] + sorted[i..];
    FilterAppend(sorted[..i], sorted[i..], sel);
    assert sorted[i..] == [sorted[i]] + sorted[i + 1..];
    assert rest == [sorted[i]] + Filter(sorted[i + 1..], sel);
    var r := FilteredPosts(sorted, activeCategory, searchQuery, featured);
    if |before| < GridSize {
      assert r[|before|] == sorted[i];
    } else {
      assert r == before[..GridSize];
    }
  }

  /** With no category and an empty query, the grid is the list without the featured post,
      cut at five. */
  lemma EmptyFilterKeepsAllButFeatured(sorted: seq<Post>, featured: Option<Post>)
    ensures FilteredPosts(sorted, None, "", featured)
         == SliceTo(Filter(sorted, NotFeaturedBy(featured)), GridSize)
  {
    forall p | p in sorted
      ensures SelectedBy(None, "", featured)(p) == NotFeaturedBy(featured)(p)
    {
      assert Lower("") == "";
      IncludesEmpty(Lower(p.title));
    }
    FilterCongruent(sorted, SelectedBy(None, "", featured), NotFeaturedBy(featured));
  }

  /** Upper and lower case in the query make no difference. */
  lemma SearchIgnoresQueryCase(searchQuery: string, p: Post)
    ensures SearchMatches(Lower(searchQuery), p) == SearchMatches(searchQuery, p)
  {
    LowerIdempotent(searchQuery);
  }

  // ---------------------------------------------------------------------------
  // The featured article's own test and the whole section
  // ---------------------------------------------------------------------------

  /** `featuredPost && (!activeCategory || ...) && (!searchQuery || title/excerpt/tag test)` */
  predicate FeaturedVisible(featured: Option<Post>, activeCategory: Option<string>, searchQuery: string)
  {
    && featured.Some?
    && CategoryMatches(activeCategory, featured.value.category)
    && (searchQuery == "" || SearchMatches(searchQuery, featured.value))
  }

  /** The featured article is shown iff it passes the same category and search tests as the
      grid: the short cut for an empty query agrees with the substring test. */
  lemma FeaturedVisibleIffMatches(featured: Option<Post>, activeCategory: Option<string>, searchQuery: string)
    ensures FeaturedVisible(featured, activeCategory, searchQuery)
        <==> featured.Some? && CategoryMatches(activeCategory, featured.value.category)
             && SearchMatches(searchQuery, featured.value)
  {
    if featured.Some? && searchQuery == "" {
      assert Lower(searchQuery) == "";
      IncludesEmpty(Lower(featured.value.title));
    }
  }

  /** The section as rendered: sort, pick the featured post, filter the rest. The featured
      post is shown exactly when it passes the grid's own tests, and the grid always leaves
      out the featured post's id, whether that post is shown or not. */
  function BlogSection(blogPosts: seq<Post>, startupPosts: seq<Post>, activeCategory: Option<string>,
                       searchQuery: string): (view: Listing)
    ensures |view.grid| <= GridSize
    ensures view.featured.Some? <==>
              && FeaturedPost(SortedPosts(blogPosts, startupPosts)).Some?
              && CategoryMatches(activeCategory, FeaturedPost(SortedPosts(blogPosts, startupPosts)).value.category)
              && SearchMatches(searchQuery, FeaturedPost(SortedPosts(blogPosts, startupPosts)).value)
    ensures view.featured.Some? ==> view.featured == FeaturedPost(SortedPosts(blogPosts, startupPosts))
    ensures view.featured.Some? ==> view.featured.value in blogPosts + startupPosts
    ensures IsSubsequence(view.grid, SortedPosts(blogPosts, startupPosts))
    ensures forall p :: p in view.grid ==>
              Selected(activeCategory, searchQuery, FeaturedPost(SortedPosts(blogPosts, startupPosts)), p)
    ensures FeaturedPost(SortedPosts(blogPosts, startupPosts)).Some? ==>
              forall p :: p in view.grid ==> p.id != FeaturedPost(SortedPosts(blogPosts, startupPosts)).value.id
    ensures forall p :: p in view.grid ==> p in blogPosts + startupPosts
  {
    var sorted := SortedPosts(blogPosts, startupPosts);
    var featured := FeaturedPost(sorted);
    assert forall p :: p in sorted ==> p in multiset(blogPosts + startupPosts);
    FeaturedVisibleIffMatches(featured, activeCategory, searchQuery);
    FilteredPostsKeepOrder(sorted, activeCategory, searchQuery, featured);
    Listing(if FeaturedVisible(featured, activeCategory, searchQuery) then featured else None,
            FilteredPosts(sorted, activeCategory, searchQuery, featured))
  }

  // ---------------------------------------------------------------------------
  // `shuffleArray`
  // ---------------------------------------------------------------------------

  function Swap<T>(s: seq<T>, i: nat, j: nat): (r: seq<T>)
    requires i < |s| && j < |s|
    ensures |r| == |s| && multiset(r) == multiset(s)
  {
    s[i := s[j]][j := s[i]]
  }

  /** The Fisher–Yates passes from position `i` down to 1, each swapping position `i` with
      the drawn position `pick(i) % (i + 1)`, that is, some position in `[0, i]`. */
  function FisherYates<T>(s: seq<T>, i: int, pick: nat -> nat): (r: seq<T>)
    requires i < |s|
    ensures |r| == |s| && multiset(r) == multiset(s)
    decreases i
  {
    if i <= 0 then s else FisherYates(Swap(s, i, pick(i) % (i + 1)), i - 1, pick)
  }

  /** `shuffleArray(array)`: shuffles a copy. The random draw `Math.floor(Math.random() * (i + 1))`
      is `pick(i) % (i + 1)`, so every choice of positions is covered. The result is a
      permutation of the input, which is left as it was. */
  method ShuffleArray<T>(input: seq<T>, pick: nat -> nat) returns (output: seq<T>)
    ensures |output| == |input|
    ensures multiset(output) == multiset(input)
    ensures output == FisherYates(input, |input| - 1, pick)
  {
    var a := new T[|input|](k requires 0 <= k < |input| => input[k]);
    assert a[..] == input;
    var i := a.Length - 1;
    while i > 0
      invariant -1 <= i < a.Length
      invariant multiset(a[..]) == multiset(input)
      invariant FisherYates(a[..], i, pick) == FisherYates(input, |input| - 1, pick)
    {
      var j := pick(i) % (i + 1);
      ghost var before := a[..];
      var t := a[i];
      a[i] := a[j];
      a[j] := t;
      assert a[..] == Swap(before, i, j);
      i := i - 1;
    }
    output := a[..];
  }
}
