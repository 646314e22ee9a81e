/** The post store of lib/blog-data.ts: raw post records, their normalisation, and the
    four query functions over them. The store itself (`data/blog-posts.json`) is the
    parameter `rawPosts`. */
module BlogData {
  import opened Collections
  import opened Sorting
  import opened JsonValues

  /** A post record as stored. `slug` may be absent; dates are timestamps. */
  datatype RawPost = RawPost(
    id: string,
    slug: Option<string>,
    title: string,
    excerpt: string,
    content: Json,
    published: bool,
    published_at: int,
    tags: seq<string>,
    created_at: string,
    updated_at: string,
    author: Option<string>,
    read_time: Option<string>,
    category: Option<string>)

  /** A post as returned by the queries: the `BlogPost` interface of types/blog.ts. */
  datatype BlogPost = BlogPost(
    id: string,
    slug: string,
    title: string,
    excerpt: string,
    content: Json,
    published: bool,
    published_at: int,
    tags: seq<string>,
    created_at: string,
    updated_at: string,
    author: Option<string>,
    read_time: Option<string>,
    category: Option<string>)

  /** An entry of the static-path list. */
  datatype SlugParam = SlugParam(slug: string)

  /** The limit `getLatestPosts` uses when called without one. */
  const DefaultLimit: int := 3

  /** `post.slug ?? post.id` */
  function ResolvedSlug(p: RawPost): string
  {
    match p.slug
    case Some(s) => s
    case None => p.id
  }

  /** The raw record a post came from, given the raw record's own `slug` field. */
  function WithSlugField(b: BlogPost, slug: Option<string>): RawPost
  {
    RawPost(b.id, slug, b.title, b.excerpt, b.content, b.published, b.published_at, b.tags,
            b.created_at, b.updated_at, b.author, b.read_time, b.category)
  }

  /** `normalizePost`: a present `slug` is kept (even an empty one), an absent one is
      replaced by `id`, and every other field is copied unchanged. */
  function NormalizePost(p: RawPost): (b: BlogPost)
    ensures p.slug.Some? ==> b.slug == p.slug.value
    ensures p.slug.None? ==> b.slug == p.id
    ensures WithSlugField(b, p.slug) == p
  {
    BlogPost(p.id, ResolvedSlug(p), p.title, p.excerpt, p.content, p.published, p.published_at,
             p.tags, p.created_at, p.updated_at, p.author, p.read_time, p.category)
  }

  /** A post stored with its slug spelt out normalises to itself. */
  lemma NormalizeWithSlug(b: BlogPost)
    ensures NormalizePost(WithSlugField(b, Some(b.slug))) == b
  {
  }

  predicate IsPublished(p: RawPost) { p.published }

  function PublishedAt(b: BlogPost): int { b.published_at }

  /** `.map(normalizePost)` */
  function NormalizeAll(s: seq<RawPost>): (r: seq<BlogPost>)
    ensures |r| == |s|
    ensures forall i :: 0 <= i < |s| ==> r[i] == NormalizePost(s[i])
  {
    if s == [] then [] else [NormalizePost(s[0])] + NormalizeAll(s[1..])
  }

  /** `getAllPosts()` */
  function GetAllPosts(rawPosts: seq<RawPost>): (r: seq<BlogPost>)
    ensures |r| <= |rawPosts|
  {
    NormalizeAll(Filter(rawPosts, IsPublished))
  }

  /** `getAllPosts()` lists exactly the published records, normalised: every listed post is
      published and comes from the store, and a stored record is listed iff it is published. */
  lemma GetAllPostsMembership(rawPosts: seq<RawPost>)
    ensures forall b :: b in GetAllPosts(rawPosts) ==> b.published
    ensures forall b :: b in GetAllPosts(rawPosts) ==>
              exists p :: p in rawPosts && p.published && NormalizePost(p) == b
    ensures forall p :: p in rawPosts ==> (NormalizePost(p) in GetAllPosts(rawPosts) <==> p.published)
  {
    var pub := Filter(rawPosts, IsPublished);
    var r := GetAllPosts(rawPosts);
    forall b | b in r
      ensures b.published && exists p :: p in rawPosts && p.published && NormalizePost(p) == b
    {
      var i :| 0 <= i < |r| && r[i] == b;
      assert pub[i] in pub;
    }
    forall p | p in rawPosts && p.published
      ensures NormalizePost(p) in r
    {
      assert p in pub;
      var i :| 0 <= i < |pub| && pub[i] == p;
      assert r[i] == NormalizePost(p);
    }
  }

  /** Normalising the published records of `s` gives a subsequence of the normalised `s`. */
  lemma {:induction false} NormalizedFilterIsSubsequence(s: seq<RawPost>)
    ensures IsSubsequence(NormalizeAll(Filter(s, IsPublished)), NormalizeAll(s))
  {
    if s != [] {
      NormalizedFilterIsSubsequence(s[1..]);
      var all := NormalizeAll(s);
      assert all[1..] == NormalizeAll(s[1..]);
      if s[0].published {
        assert NormalizeAll(Filter(s, IsPublished))[1..] == NormalizeAll(Filter(s[1..], IsPublished));
      } else {
        SubsequenceOfTail(NormalizeAll(Filter(s, IsPublished)), all);
      }
    }
  }

  /** `getAllPosts()` keeps the store order and lists one post per published record. */
  lemma GetAllPostsStoreOrder(rawPosts: seq<RawPost>)
    ensures IsSubsequence(GetAllPosts(rawPosts), NormalizeAll(rawPosts))
    ensures |GetAllPosts(rawPosts)| == |Filter(rawPosts, IsPublished)|
  {
    NormalizedFilterIsSubsequence(rawPosts);
  }

  /** The `find` predicate of `getPostBySlug`. */
  function SlugMatches(slug: string): RawPost -> bool
  {
    p => ResolvedSlug(p) == slug && p.published
  }

  /** `i` is the first stored record that `getPostBySlug(slug)` accepts. */
  ghost predicate IsFirstMatch(rawPosts: seq<RawPost>, slug: string, i: int)
  {
    && 0 <= i < |rawPosts|
    && ResolvedSlug(rawPosts[i]) == slug && rawPosts[i].published
    && forall j :: 0 <= j < i ==> !(ResolvedSlug(rawPosts[j]) == slug && rawPosts[j].published)
  }

  /** `getPostBySlug(slug)`: the first published record whose resolved slug is exactly
      `slug`, normalised; `None` (null) when there is none. */
  function GetPostBySlug(rawPosts: seq<RawPost>, slug: string): (r: Option<BlogPost>)
    ensures r.Some? ==> r.value.published && r.value.slug == slug
    ensures r.Some? ==> exists i :: IsFirstMatch(rawPosts, slug, i) && r.value == NormalizePost(rawPosts[i])
    ensures r.None? <==> forall p :: p in rawPosts ==> !(ResolvedSlug(p) == slug && p.published)
  {
    match FindFirst(rawPosts, SlugMatches(slug))
    case None => None
    case Some(i) =>
      assert IsFirstMatch(rawPosts, slug, i);
      Some(NormalizePost(rawPosts[i]))
  }

  /** No two published records resolve to the same slug. */
  ghost predicate UniqueSlugs(rawPosts: seq<RawPost>)
  {
    forall i, j :: 0 <= i < j < |rawPosts| && rawPosts[i].published && rawPosts[j].published
      ==> ResolvedSlug(rawPosts[i]) != ResolvedSlug(rawPosts[j])
  }

  /** With unique slugs, every published record is found by its own slug. */
  lemma FindsEveryPublishedRecord(rawPosts: seq<RawPost>, k: nat)
    requires UniqueSlugs(rawPosts)
    requires k < |rawPosts| && rawPosts[k].published
    ensures GetPostBySlug(rawPosts, ResolvedSlug(rawPosts[k])) == Some(NormalizePost(rawPosts[k]))
  {
    var r := GetPostBySlug(rawPosts, ResolvedSlug(rawPosts[k]));
    assert rawPosts[k] in rawPosts;
    var i :| IsFirstMatch(rawPosts, ResolvedSlug(rawPosts[k]), i) && r.value == NormalizePost(rawPosts[i]);
    assert !(i < k) && !(k < i);
  }

  /** With unique slugs, every post of `getAllPosts()` is found by `getPostBySlug` under its slug. */
  lemma FindsEveryListedPost(rawPosts: seq<RawPost>, b: BlogPost)
    requires UniqueSlugs(rawPosts)
    requires b in GetAllPosts(rawPosts)
    ensures GetPostBySlug(rawPosts, b.slug) == Some(b)
  {
    GetAllPostsMembership(rawPosts);
    var p :| p in rawPosts && p.published && NormalizePost(p) == b;
    var k :| 0 <= k < |rawPosts| && rawPosts[k] == p;
    FindsEveryPublishedRecord(rawPosts, k);
  }

  /** `getLatestPosts(limit)`: the posts of `getAllPosts()` newest first (a stable sort, so
      posts published at the same time keep their store order), cut by `slice(0, limit)`. */
  function GetLatestPosts(rawPosts: seq<RawPost>, limit: int := DefaultLimit): (r: seq<BlogPost>)
    ensures |r| <= |GetAllPosts(rawPosts)|
    ensures SortedDesc(r, PublishedAt)
    ensures forall b :: b in r ==> b in GetAllPosts(rawPosts)
  {
    var all := GetAllPosts(rawPosts);
    SortDescMembers(all, PublishedAt);
    SliceTo(SortDesc(all, PublishedAt), limit)
  }

  /** How many posts `getLatestPosts` returns: `min(limit, n)`, none for a limit of 0, and
      for a negative limit all but the last `-limit` (JavaScript's `slice`). */
  lemma LatestPostsCount(rawPosts: seq<RawPost>, limit: int)
    ensures 0 <= limit ==> |GetLatestPosts(rawPosts, limit)| == Min(limit, |GetAllPosts(rawPosts)|)
    ensures limit == 0 ==> GetLatestPosts(rawPosts, limit) == []
    ensures limit < 0 ==> |GetLatestPosts(rawPosts, limit)| == Max(0, |GetAllPosts(rawPosts)| + limit)
    ensures |GetLatestPosts(rawPosts)| == Min(3, |GetAllPosts(rawPosts)|)
  {
  }

  /** The latest posts are newest first, each comes from `getAllPosts()` (no more often
      than there), and posts with the same date appear in store order. */
  lemma LatestPostsOrder(rawPosts: seq<RawPost>, limit: int)
    ensures SortedDesc(GetLatestPosts(rawPosts, limit), PublishedAt)
    ensures multiset(GetLatestPosts(rawPosts, limit)) <= multiset(GetAllPosts(rawPosts))
    ensures forall b :: b in GetLatestPosts(rawPosts, limit) ==> b in GetAllPosts(rawPosts)
    ensures forall t :: WithKey(GetLatestPosts(rawPosts, limit), PublishedAt, t)
                          <= WithKey(GetAllPosts(rawPosts), PublishedAt, t)
  {
    var all := GetAllPosts(rawPosts);
    var sorted := SortDesc(all, PublishedAt);
    var r := GetLatestPosts(rawPosts, limit);
    assert r == sorted[..|r|];
    assert sorted == r + sorted[|r|..];
    assert multiset(sorted) == multiset(r) + multiset(sorted[|r|..]);
    forall b | b in r
      ensures b in all
    {
      assert b in multiset(sorted);
    }
    forall t
      ensures WithKey(r, PublishedAt, t) <= WithKey(all, PublishedAt, t)
    {
      WithKeyPrefix(sorted, PublishedAt, t, |r|);
      SortDescStable(all, PublishedAt, t);
    }
  }

  /** No post left out of `getLatestPosts` is newer than one it returns. */
  lemma LatestPostsAreNewest(rawPosts: seq<RawPost>, limit: int, b: BlogPost)
    requires b in GetAllPosts(rawPosts) && b !in GetLatestPosts(rawPosts, limit)
    ensures forall x :: x in GetLatestPosts(rawPosts, limit) ==> x.published_at >= b.published_at
  {
    var sorted := SortDesc(GetAllPosts(rawPosts), PublishedAt);
    var r := GetLatestPosts(rawPosts, limit);
    assert r == sorted[..|r|];
    assert b in multiset(sorted);
    var j :| 0 <= j < |sorted| && sorted[j] == b;
    assert j >= |r|;
    forall x | x in r
      ensures x.published_at >= b.published_at
    {
      var i :| 0 <= i < |r| && r[i] == x;
      assert sorted[i] == x;
    }
  }

  /** `.map((post) => ({ slug: post.slug ?? post.id }))` */
  function SlugsOf(s: seq<RawPost>): (r: seq<SlugParam>)
    ensures |r| == |s|
    ensures forall i :: 0 <= i < |s| ==> r[i] == SlugParam(ResolvedSlug(s[i]))
  {
    if s == [] then [] else [SlugParam(ResolvedSlug(s[0]))] + SlugsOf(s[1..])
  }

  /** `getAllPostSlugs()` */
  function GetAllPostSlugs(rawPosts: seq<RawPost>): (r: seq<SlugParam>)
    ensures |r| <= |rawPosts|
    ensures forall e :: e in r ==> exists p :: p in rawPosts && p.published && e.slug == ResolvedSlug(p)
    ensures forall p :: p in rawPosts && p.published ==> SlugParam(ResolvedSlug(p)) in r
  {
    var pub := Filter(rawPosts, IsPublished);
    var r := SlugsOf(pub);
    assert forall i :: 0 <= i < |r| ==> pub[i] in pub && r[i] == SlugParam(ResolvedSlug(pub[i]));
    assert forall p :: p in pub ==> exists i :: 0 <= i < |pub| && pub[i] == p && r[i] == SlugParam(ResolvedSlug(p));
    r
  }

  /** The static-path list matches `getAllPosts()` entry by entry. */
  lemma SlugsMatchAllPosts(rawPosts: seq<RawPost>)
    ensures |GetAllPostSlugs(rawPosts)| == |GetAllPosts(rawPosts)|
    ensures forall i :: 0 <= i < |GetAllPosts(rawPosts)| ==>
              GetAllPostSlugs(rawPosts)[i] == SlugParam(GetAllPosts(rawPosts)[i].slug)
  {
  }

  /** Distinctness of resolved slugs among published records survives the filter. */
  lemma {:induction false} FilteredSlugsDistinct(s: seq<RawPost>)
    requires UniqueSlugs(s)
    ensures forall i, j :: 0 <= i < j < |Filter(s, IsPublished)| ==>
              ResolvedSlug(Filter(s, IsPublished)[i]) != ResolvedSlug(Filter(s, IsPublished)[j])
  {
    if s != [] {
      var rest := Filter(s[1..], IsPublished);
      assert UniqueSlugs(s[1..]) by {
        forall i, j | 0 <= i < j < |s[1..]| && s[1..][i].published && s[1..][j].published
          ensures ResolvedSlug(s[1..][i]) != ResolvedSlug(s[1..][j])
        {
          assert s[1..][i] == s[i + 1] && s[1..][j] == s[j + 1];
        }
      }
      FilteredSlugsDistinct(s[1..]);
      if s[0].published {
        var f := Filter(s, IsPublished);
        assert f == [s[0]] + rest;
        forall j | 0 < j < |f|
          ensures ResolvedSlug(f[0]) != ResolvedSlug(f[j])
        {
          assert f[j] == rest[j - 1];
          assert rest[j - 1] in rest;
          var k :| 0 <= k < |s[1..]| && s[1..][k] == f[j];
          assert s[k + 1] == f[j];
        }
        forall i, j | 0 < i < j < |f|
          ensures ResolvedSlug(f[i]) != ResolvedSlug(f[j])
        {
          assert f[i] == rest[i - 1] && f[j] == rest[j - 1];
        }
      }
    }
  }

  /** With unique slugs, `getAllPostSlugs()` lists no slug twice. */
  lemma SlugsDistinct(rawPosts: seq<RawPost>)
    requires UniqueSlugs(rawPosts)
    ensures forall i, j :: 0 <= i < j < |GetAllPostSlugs(rawPosts)| ==>
              GetAllPostSlugs(rawPosts)[i] != GetAllPostSlugs(rawPosts)[j]
  {
    FilteredSlugsDistinct(rawPosts);
  }

  /** An unpublished record never reaches a caller: not through `getAllPosts`, not through
      `getLatestPosts`, not through `getPostBySlug`. */
  lemma UnpublishedNeverReturned(rawPosts: seq<RawPost>, p: RawPost, slug: string, limit: int)
    requires p in rawPosts && !p.published
    ensures NormalizePost(p) !in GetAllPosts(rawPosts)
    ensures NormalizePost(p) !in GetLatestPosts(rawPosts, limit)
    ensures GetPostBySlug(rawPosts, slug) != Some(NormalizePost(p))
  {
    GetAllPostsMembership(rawPosts);
    LatestPostsOrder(rawPosts, limit);
  }
}
