# Blog queries, blog listing and translation lookup of a portfolio site

This project models the logic of a Next.js portfolio and blog site. It proves properties of that model in Dafny. The site is mostly markup and article text. Three pieces of it compute something, and those are modelled here:

- **The post store** (`lib/blog-data.ts`, module `BlogData`). Posts are raw records read from a JSON file. `normalizePost` fills in a missing `slug` from `id`. Four query functions read the store: `getAllPosts` returns the published posts, `getPostBySlug` finds one by exact slug match, `getLatestPosts` returns the newest posts (three by default), and `getAllPostSlugs` lists the slugs for static paths. The store is a parameter `rawPosts`.
- **The blog section's selection logic** (`app/components/Blog.tsx`, module `BlogListing`). It joins two post arrays and sorts them newest first. It picks a featured post: the one with id `"fusion-rag"`, or else the newest. It then fills a grid of at most five more posts, filtered by category and by a case-insensitive search over title, excerpt and tags. The featured post is shown only if it passes the same tests. The component also defines an unused Fisher–Yates `shuffleArray`, modelled as a method over an array.
- **The translation provider** (`app/components/I18nProvider.tsx`, module `I18n`). `get` walks a dotted path through a JSON message catalogue. `t` returns the string found there or falls back to the key. With `returnObjects` it returns any truthy value found, or `{}`. The current locale is state, toggled between `"en"` and `"es"`; it is the class `LocaleState`.

Shared modules:
- `Collections` holds JavaScript's `filter`, `find` and `slice(0, end)`, and subsequences.
- `Text` holds `toLowerCase` and `includes`.
- `Sorting` holds the stable descending sort that `Array.prototype.sort` performs with a `b - a` comparator.
- `JsonValues` holds the JSON value type.

Dates are integer timestamps. A post's `content` is an opaque JSON value. Each query is a function of `rawPosts`. So a call cannot change the store, the order of later `getAllPosts()` results, or any later query result. This covers the fresh array that `getLatestPosts` sorts.

Four behaviours of the code are easy to misread. The model follows the code each time:
- A present but empty `slug` is kept, because `??` only replaces `null` and `undefined`.
- The grid filter compares `category` exactly. It does not fall back to a default category.
- An empty `activeCategory` string selects every post, as `null` does.
- For an empty post list, the featured post is `undefined` (`None`).

## Model

| member | source | states |
|---|---|---|
| BlogData.NormalizePost | lib/blog-data.ts:11-16 | a present slug is kept, even an empty one; an absent slug becomes the id; restoring the raw slug field gives back the original record, so no other field changes |
| BlogData.NormalizeWithSlug | lib/blog-data.ts:11-16 | a record whose slug is already filled in normalises to the same post (round trip) |
| BlogData.GetAllPostsMembership | lib/blog-data.ts:18-22 | every listed post is published and is the normalised form of a published stored record; a stored record is listed iff it is published |
| BlogData.GetAllPostsStoreOrder | lib/blog-data.ts:18-22 | the list is a subsequence of the normalised store (store order kept), one entry per published record |
| BlogData.GetPostBySlug | lib/blog-data.ts:24-29 | a result is published and carries the queried slug; it is the normalised first published record whose `slug ?? id` equals the query; the result is null iff no such record exists |
| BlogData.FindsEveryPublishedRecord | lib/blog-data.ts:24-29 | if published slugs are unique, looking up any published record's resolved slug returns that record, normalised |
| BlogData.FindsEveryListedPost | lib/blog-data.ts:18-29 | if published slugs are unique, every post of `getAllPosts()` is returned by `getPostBySlug(post.slug)` |
| BlogData.GetLatestPosts | lib/blog-data.ts:31-35 | the result has at most as many posts as `getAllPosts()`, is ordered newest first, and every post in it comes from `getAllPosts()` |
| BlogData.LatestPostsCount | lib/blog-data.ts:31-35 | for a limit n ≥ 0 the result has min(n, #posts) entries, so `getLatestPosts(0)` is empty; a negative limit drops that many posts from the end; the default limit is 3 |
| BlogData.LatestPostsOrder | lib/blog-data.ts:31-35 | the result is newest first; it is a sub-multiset of `getAllPosts()`; posts with the same date keep store order (stable sort) |
| BlogData.LatestPostsAreNewest | lib/blog-data.ts:31-35 | no post left out of the result is newer than a returned post |
| BlogData.GetAllPostSlugs | lib/blog-data.ts:37-41 | every listed slug is the `slug ?? id` of a published stored record, and every published record's `slug ?? id` is listed |
| BlogData.SlugsMatchAllPosts | lib/blog-data.ts:37-41 | `getAllPostSlugs()` has as many entries as `getAllPosts()`, and entry i is `{slug: getAllPosts()[i].slug}` |
| BlogData.SlugsDistinct | lib/blog-data.ts:37-41 | if published slugs are unique, no slug is listed twice |
| BlogData.UnpublishedNeverReturned | lib/blog-data.ts:18-35 | an unpublished record never comes back from `getAllPosts`, `getLatestPosts` or `getPostBySlug` |
| Sorting.SortDesc | lib/blog-data.ts:33 | the sort result is a permutation of its input, ordered non-increasing by the key |
| Sorting.SortDescStable | lib/blog-data.ts:33 | for every key value, the elements with that key appear in the same order as in the input |
| BlogListing.SortedPosts | app/components/Blog.tsx:421-424 | the sorted list has as many posts as the two arrays together, holds the same posts, and is newest first |
| BlogListing.SortedPostsOrder | app/components/Blog.tsx:421-424 | the sorted posts are a permutation of `blogPosts ++ startupPosts`, newest first; posts with the same date stay in concatenation order |
| BlogListing.FeaturedPost | app/components/Blog.tsx:427 | the featured post is defined iff the list is non-empty and comes from the list; it is the first post with id `"fusion-rag"` if there is one, otherwise the first sorted post |
| BlogListing.FilteredPosts | app/components/Blog.tsx:430-439 | the grid has at most 5 posts; each comes from the list, matches the category (or none is selected), contains the lower-cased query in its title, excerpt or a tag, and does not have the featured post's id |
| BlogListing.FilteredPostsKeepOrder | app/components/Blog.tsx:430-439 | the grid is a subsequence of the sorted list |
| BlogListing.FilteredPostsComplete | app/components/Blog.tsx:430-439 | a post that passes the filter but is not shown means the grid is full (5 posts), and those 5 are the first 5 matches that come before it in the list |
| BlogListing.EmptyFilterKeepsAllButFeatured | app/components/Blog.tsx:432-439 | with no category and an empty query, the grid is the first 5 posts of the list other than the featured one |
| BlogListing.SearchIgnoresQueryCase | app/components/Blog.tsx:433-436 | lower-casing the query first changes no search result |
| Text.IncludesIffOccurs | app/components/Blog.tsx:434-436 | `includes` holds exactly when the needle occurs at some position of the haystack |
| BlogListing.FeaturedVisibleIffMatches | app/components/Blog.tsx:521-525 | the featured post is shown iff it exists, its category matches (or none is selected), and the grid's substring test passes; the empty-query short cut agrees with that test |
| BlogListing.BlogSection | app/components/Blog.tsx:421-439 | the featured post is shown iff it exists and passes the grid's category and search tests, and then it is the featured post of the sorted list; the grid holds at most 5 posts, is a subsequence of the sorted list, and each of its posts passes the filter; the grid never holds the featured post's id, even when that post is hidden; every post shown comes from the two input arrays |
| BlogListing.FisherYates | app/components/Blog.tsx:377-382 | the swap passes, for any choice of positions, give a permutation of the input of the same length |
| BlogListing.ShuffleArray | app/components/Blog.tsx:376-383 | the shuffled copy is a permutation of the input, for any draw j in [0, i] at each step; it is exactly the sequence of swaps the loop performs; the input is a value and is left unchanged |
| I18n.Split | app/components/I18nProvider.tsx:24 | `split(".")` yields at least one segment, and no segment contains a dot |
| I18n.JoinSplit | app/components/I18nProvider.tsx:24 | joining the segments with dots gives back the path |
| I18n.SplitJoin | app/components/I18nProvider.tsx:24 | splitting dot-free segments joined with dots gives back the segments |
| I18n.Member | app/components/I18nProvider.tsx:24 | `acc[part]` is defined only on objects, arrays and strings; on an object it is the own member, defined iff the key is present; on an array or a string it is `length` (a number) or an element at a canonical decimal index (one character for a string) |
| I18n.NumeralIsIndex | app/components/I18nProvider.tsx:24 | the decimal numeral of n has no leading zero and is read back as the array index n |
| I18n.ArrayElementLookup | app/components/I18nProvider.tsx:23-25 | `get(array, String(i))` is element i, or `undefined` when that element is `null` |
| I18n.StringCharLookup | app/components/I18nProvider.tsx:23-25 | `get(string, String(i))` is the i-th character of the string |
| I18n.LengthLookup | app/components/I18nProvider.tsx:23-25 | `get(v, "length")` is the length of an array or non-empty string; the empty string is falsy, so it gives `undefined` |
| I18n.Step | app/components/I18nProvider.tsx:24 | one step never yields `null`; it yields `undefined` from a falsy accumulator; a defined result is `acc[part]`; a defined non-null `acc[part]` of a truthy accumulator is always passed on |
| I18n.Walk | app/components/I18nProvider.tsx:24 | the `reduce` stays `undefined` once `undefined`, and a non-empty walk never ends on `null` |
| I18n.Get | app/components/I18nProvider.tsx:23-25 | `get` never returns `null`; a missing or null step gives `undefined` |
| I18n.WalkAppend | app/components/I18nProvider.tsx:24 | walking `p ++ q` is walking `p`, then `q` from where `p` ended |
| I18n.MissingSegmentIsFinal | app/components/I18nProvider.tsx:24 | once a prefix of the path reaches `undefined`, the whole lookup is `undefined`: no later segment revives it |
| I18n.GetIsNestedLookup | app/components/I18nProvider.tsx:23-24 | `get(obj, "a.b.c")` equals `obj[a][b][c]` when every member on the way exists and is not null |
| I18n.GetSingleKey | app/components/I18nProvider.tsx:24 | for a key without dots, `get` returns `obj[key]`, or `undefined` if that member is missing or null |
| I18n.T | app/components/I18nProvider.tsx:44-51 | by default `t` returns a string: the stored string if the lookup finds one, else the key; with `returnObjects` it returns the looked-up value if truthy, else `{}`, so never a falsy value |
| I18n.Toggled | app/components/I18nProvider.tsx:56 | the toggle always yields `"en"` or `"es"`, and a different locale than an `"en"` or `"es"` it started from |
| I18n.ToggleTwice | app/components/I18nProvider.tsx:56 | toggling `"en"` or `"es"` twice gives the starting locale back |
| I18n.InitialLocale | app/components/I18nProvider.tsx:28-31 | the initial locale is `"en"` on the server or when nothing non-empty is stored; otherwise it is the stored string, which is not checked |
| I18n.MessagesFor | app/components/I18nProvider.tsx:41 | the Spanish catalogue for `"es"`, the English one for every other locale, including an unchecked stored value |
| I18n.LocaleState.constructor | app/components/I18nProvider.tsx:28-31 | a new provider starts in the initial locale |
| I18n.LocaleState.SetLocale | app/components/I18nProvider.tsx:28 | `setLocale(l)` makes `l` the locale |
| I18n.LocaleState.ToggleLocale | app/components/I18nProvider.tsx:56 | `"en"` becomes `"es"`; anything else becomes `"en"` |
| I18n.LocaleState.Translate | app/components/I18nProvider.tsx:41-53 | with locale `"es"`, `t(key)` is the translation `T` over the Spanish catalogue; with any other locale it is `T` over the English one |

## Left out

- Date parsing and formatting (`new Date(...).getTime()`, `toLocaleDateString`, date-fns). Dates are integer timestamps, so NaN comparisons of invalid dates are not modelled.
- Unicode case mapping. `toLowerCase` is modelled on ASCII letters only, and string lengths count characters, not UTF-16 code units.
- JSON numbers are integers. Floating point, and the falsiness of `NaN` and `-0`, are not modelled.
- I18n.Get: properties inherited from JavaScript prototypes are not modelled. A segment such as `constructor` or `toString` finds nothing here. In JavaScript it finds a function.
- `localStorage` and `document.documentElement.lang` writes, React state, context, `useMemo` and `useEffect`. The locale is a field, and the stored locale is a constructor parameter.
- The message catalogues (`messages/en.json`, `messages/es.json`) and the post file (`data/blog-posts.json`) are parameters. So are the two post arrays written into the blog component.
- `Math.random` in `shuffleArray` is the parameter `pick`. The swap position is `pick(i) % (i + 1)`.
- The in-place `.sort` at app/components/Blog.tsx:424 is modelled by its result only. It also reorders the freshly built `allBlogPosts` array, which nothing else reads.
- Rendering: all JSX, animation, the article pages under `app/blog/`, the other components, the page layout and the OpenGraph route. The Supabase client in `lib/supabase.ts` is a network client and is not part of this model.
- BlogData.GetAllPosts: its own contract only bounds the length. What it returns is stated by BlogData.GetAllPostsMembership, BlogData.GetAllPostsStoreOrder and BlogData.SlugsMatchAllPosts.
