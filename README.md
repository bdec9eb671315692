# Blog post index, category tallies and RSS feed — a Dafny model

This project models the build-time data layer of a statically generated blog:

- **the post indexer** (`fetchPosts`): one record per file of the `posts`
  directory, its fields copied from the file's front-matter, its URL derived from
  the file name, the list then sorted newest first with a comparator that parses
  `originalDate`;
- **the category aggregator** (`fetchCategories`, `fetchCategoriesAndCounts`):
  the set of categories of the indexed posts, and an insertion-ordered `Map`
  from category to number of posts, which the all-posts page turns into
  `[category, count]` pairs;
- **the feed generator** (`generateFeed`): an RSS channel with fixed metadata
  and one item for each of the first 20 indexed posts.

Modules, one per source concern:

| module | file | what it holds |
|---|---|---|
| `Wrappers` | `wrappers.dfy` | `Option`, used for JavaScript's `undefined` and for NaN times |
| `Strings` | `strings.dfy` | `indexOf` and `String.prototype.replace` with a string pattern |
| `Posts` | `posts.dfy` | records, URL derivation, the comparator, the sort as a function and as an in-place array insertion sort, `FetchPosts` |
| `OrderedMaps` | `ordered_map.dfy` | JavaScript's insertion-ordered `Map` (`has`, `get`, `set`, `Array.from`) |
| `Categories` | `categories.dfy` | `FetchCategories`, `FetchCategoriesAndCounts`, the page's entry list |
| `Feed` | `feed.dfy` | the `RSS` object as a class, `GenerateFeed` |

Choices that shape the model:

- Front-matter is a `map<string, string>`; a missing key reads as `None`
  (`undefined`), and every record field except `url` is an `Option<string>`.
- `new Date(s).getTime()` is a parameter `parse: string -> Option<int>`, with
  `None` standing for NaN. A post without `originalDate` gets NaN too, because
  `new Date(undefined)` is an invalid date. Every comparison with NaN is false,
  so the comparator answers 0 whenever either date is invalid.
- The sort is modelled as the stable insertion sort `SortInPlace` on an
  `array<Post>`. It is proved equal to the functional insertion sort
  `SortByDate`. About `SortByDate` the model proves four things: it is a
  permutation; it is newest first when every date is valid; it keeps the listing
  order among posts with the same parsed date, invalid dates included; and it is
  the *only* newest-first permutation with that stability when every date is
  valid (`StableSortIsSortByDate`). So any stable sort with this comparator,
  JavaScript's included, returns the same list when all dates are valid.
- `url` is `"/" + name.replace(".mdx", "")`. JavaScript's `replace` with a
  string pattern removes only the leftmost `.mdx`, which may sit in the middle
  of the name (`OnlyFirstExtensionRemoved`). This is not an extension strip:
  `x.mdx.mdx` becomes `/x.mdx`.
- The feed links are `url + post.url`. Both halves supply a `/`, so every link
  holds `//` after the host (`ItemUrlDoubleSlash`): `b.mdx` links to
  `https://blog.jeffreyshum.com//b`.
- The directory listing is flat, since `readdirSync` of `posts` does not
  recurse. It is a parameter, `listing: seq<Entry>`: each entry is a file name
  with its parsed front-matter.
- The `Map` of `fetchCategoriesAndCounts` is never shared, so it is a value
  (`OrderedMap`) reassigned in a local. The `RSS` object is a class whose
  `Item` method appends to its `items` field.

## Model

| member | source | states |
|---|---|---|
| `Strings.IndexOfFrom` | utils/fetch_posts.ts:18 | the result is the leftmost occurrence of the pattern at or after `from`; `None` means there is no occurrence from `from` on |
| `Strings.IndexOfSpec` | utils/fetch_posts.ts:18 | `Strings.IndexOf` (`indexOf`) returns the leftmost occurrence, and returns none exactly when the pattern does not occur |
| `Strings.ReplaceFirstSpec` | utils/fetch_posts.ts:18 | `Strings.ReplaceFirst`, `replace` with a string pattern, substitutes the leftmost occurrence only; a string without the pattern is returned unchanged |
| `Posts.PostUrlShape` | utils/fetch_posts.ts:18 | `Posts.PostUrl`, the URL derived from a file name, starts with `/`; a name without `.mdx` is kept whole; otherwise exactly the leftmost `.mdx` is cut out |
| `Posts.ToPostFields` | utils/fetch_posts.ts:13-20 | in `Posts.ToPost`, the record pushed for one entry, each of title, description, originalDate, keywords and category is the front-matter value under its key, undefined when the key is missing; the URL comes from the file name alone |
| `Posts.Records` | utils/fetch_posts.ts:10-21 | the loop pushes exactly one record per directory entry |
| `Posts.RecordsAt` | utils/fetch_posts.ts:10-21 | the record at position `i` is the one built from entry `i`, in listing order |
| `Posts.FirstExtensionAfterStem` | utils/fetch_posts.ts:18 | in `stem.mdx…`, with no `.mdx` inside `stem`, the leftmost `.mdx` is the one right after the stem |
| `Posts.UrlOfMdxFile` | utils/fetch_posts.ts:18 | `stem.mdx` gets the URL `/stem`; dropping the `/` and adding `.mdx` gives back the file name |
| `Posts.OnlyFirstExtensionRemoved` | utils/fetch_posts.ts:18 | `stem.mdx.mdx` gets `/stem.mdx`: only the first `.mdx` is removed, the real extension stays |
| `Posts.CompareByDate` | utils/fetch_posts.ts:24-31 | the comparator answers -1, 0 or 1; negative exactly when `a`'s date is strictly later, positive exactly when `b`'s is; 0 whenever either date is invalid; a post's date is `Posts.Stamp`, `new Date(originalDate).getTime()` through `parse`, NaN (`None`) when `originalDate` is undefined or does not parse |
| `Posts.CompareAntisymmetric` | utils/fetch_posts.ts:28-30 | swapping the arguments negates the answer; 0 exactly when neither date is strictly later |
| `Posts.Insert` | utils/fetch_posts.ts:24-31 | one insertion step of the sort adds exactly one element |
| `Posts.SortByDate` | utils/fetch_posts.ts:24-31 | the sort keeps the number of posts |
| `Posts.InsertPermutes` | utils/fetch_posts.ts:24-31 | an insertion step adds the inserted post and loses nothing |
| `Posts.SortPermutes` | utils/fetch_posts.ts:24-31 | the sorted list is a permutation of its input |
| `Posts.AllDatedPermutation` | utils/fetch_posts.ts:25-26 | a permutation of posts with valid dates has valid dates throughout |
| `Posts.AppendOldest` | utils/fetch_posts.ts:24-31 | appending a post no newer than any before it keeps the list newest first |
| `Posts.InsertNewestFirst` | utils/fetch_posts.ts:24-31 | with valid dates, inserting into a newest-first list keeps it newest first |
| `Posts.SortNewestFirst` | utils/fetch_posts.ts:24-31 | with every date valid, the sorted list is newest first |
| `Posts.WithStampAppend` | utils/fetch_posts.ts:24-31 | the posts of one parsed date in `a + b` are those of `a` followed by those of `b` |
| `Posts.InsertStable` | utils/fetch_posts.ts:24-31 | an insertion step places the new post after every post with the same parsed date |
| `Posts.SortStable` | utils/fetch_posts.ts:24-31 | for every parsed date, invalid included, the posts with that date keep their listing order |
| `Posts.LastIsOldest` | utils/fetch_posts.ts:24-31 | the last post of a dated newest-first list is no newer than any post in it |
| `Posts.SameLast` | utils/fetch_posts.ts:24-31 | two dated newest-first lists that agree within every date end with the same post |
| `Posts.DropLast` | utils/fetch_posts.ts:24-31 | removing a common last post keeps the agreement within every date |
| `Posts.StableArrangementUnique` | utils/fetch_posts.ts:24-31 | two dated newest-first lists of equal length that agree within every date are equal |
| `Posts.StableSortIsSortByDate` | utils/fetch_posts.ts:24-31 | with every date valid, any stable newest-first permutation of the records equals the model's sort |
| `Posts.InsertLands` | utils/fetch_posts.ts:24-31 | the inserted post lands right after the last element the comparator does not rank after it |
| `Posts.InsertAt` | utils/fetch_posts.ts:24-31 | one in-place insertion step leaves the prefix equal to `Insert` of the old prefix and the old element, and the rest of the array unchanged |
| `Posts.SortInPlace` | utils/fetch_posts.ts:24-31 | the in-place insertion sort leaves the array equal to `SortByDate` of its old contents |
| `Posts.IndexOrder` | utils/fetch_posts.ts:5-34 | the index `Posts.Index`, the records sorted by `SortByDate`, has one record per entry, is a permutation of the records, keeps the listing order within every date, and is newest first when every date is valid |
| `Posts.FetchPosts` | utils/fetch_posts.ts:5-34 | the pushed-then-sorted array is the index, with one post per directory entry |
| `OrderedMaps.Empty` | utils/fetch_categories.ts:13 | `new Map()` has no keys and no values |
| `OrderedMaps.OrderedMap.Set` | utils/fetch_categories.ts:16-20 | `set` updates the value; a present key keeps its place; a new key goes to the end of the key order; keys stay distinct |
| `OrderedMaps.OrderedMap.Entries` | pages/posts/index.tsx:51 | `Array.from(map)` lists one `[key, value]` pair per key, in key order |
| `Categories.FirstSeenKeys` | utils/fetch_categories.ts:15-21 | the first-seen key list holds every category of the posts exactly once |
| `Categories.CountPositive` | utils/fetch_categories.ts:15-21 | a category's count is positive exactly when some post has it |
| `Categories.FirstSeenOrder` | utils/fetch_categories.ts:15-21 | keys are ordered by first occurrence: each post whose key is listed later is preceded by a post of every key listed earlier |
| `Categories.CountPermutation` | utils/fetch_categories.ts:15-21 | counts do not depend on the order of the posts |
| `Categories.CategoriesPermutation` | utils/fetch_categories.ts:6 | the set of categories does not depend on the order of the posts |
| `Categories.CountsSumToTotal` | utils/fetch_categories.ts:15-21 | the counts of all categories add up to the number of posts |
| `Categories.SumOfTable` | pages/posts/index.tsx:51 | the counts in a list of `[category, count]` pairs add up to the counts of its keys |
| `Categories.CategoriesOfRecords` | utils/fetch_categories.ts:6 | a category is present exactly when some entry's front-matter gives it |
| `Categories.CategoriesOfIndex` | utils/fetch_categories.ts:3-9 | sorting does not change the categories, which are those the entries give |
| `Categories.FetchCategories` | utils/fetch_categories.ts:3-9 | the set holds exactly the categories of the indexed posts, that is, those some entry's front-matter gives |
| `Categories.TallyIncrement` | utils/fetch_categories.ts:16-17 | with `OrderedMaps.OrderedMap.Has` and `OrderedMaps.OrderedMap.Get` standing for `map.has` and `map.get(c)!`, a category already in the table gets one more, and the table still tallies the posts seen |
| `Categories.TallyInsert` | utils/fetch_categories.ts:18-19 | a new category is created with 1 at the end of the key order, and the table still tallies the posts seen |
| `Categories.TallyStep` | utils/fetch_categories.ts:15-21 | either branch of the loop body extends the tally by one post |
| `Categories.TallyOfReordered` | utils/fetch_categories.ts:15-21 | a tally of the sorted posts holds the categories and counts of the unsorted records, none of them zero |
| `Categories.TallyOfIndex` | utils/fetch_categories.ts:12-24 | a tally of the index describes the records of the listing, and its key set is the set of categories of the index |
| `Categories.FetchCategoriesAndCounts` | utils/fetch_categories.ts:12-24 | keys in order of first occurrence in the index; a key is present exactly when it is some post's category; each value is that category's number of posts, at least 1; the key set equals the set `fetchCategories` returns |
| `Categories.TableEntries` | pages/posts/index.tsx:51 | the table's pairs list each category once with its count, each count at least 1, adding up to the number of posts |
| `Categories.CategoryCountEntries` | pages/posts/index.tsx:51 | the page's pairs list every category once in first-seen order with its count, each at least 1, adding up to the number of directory entries |
| `Feed.Rss.constructor` | utils/rss_feed.ts:8-16 | a new feed holds the given channel options and no items |
| `Feed.Rss.Item` | utils/rss_feed.ts:22-28 | `item` appends exactly one item at the end |
| `Feed.GenerateFeed` | utils/rss_feed.ts:5-32 | the channel carries the fixed metadata with feed URL `<base>rss.xml`; there are min(20, number of posts) items; item `i` is `Feed.ItemOf` of post `i` of the index, its title, description and date those of the post unchanged, its link `<base>` + the post's URL and its categories the one-element list of the post's category; the result is `Feed.Rss.Xml`, the channel and item list that `feed.xml()` renders |
| `Feed.ItemUrlDoubleSlash` | utils/rss_feed.ts:25 | every item link has `//` where the base URL and the post's URL meet |
| `Feed.ItemUrlOfMdxFile` | utils/rss_feed.ts:25 | the item of `stem.mdx` links to the base URL, a second `/`, then the stem |
| `Feed.FeedHoldsNewest` | utils/rss_feed.ts:18-21 | with every date valid, no post left out of the feed is newer than one in it |

## Left out

- Reading the `posts` directory and the files (`readdirSync`, `readFileSync`): the listing is a parameter, in directory order.
- Front-matter parsing by `gray-matter`: each file's front-matter is a map from key to string. YAML values that are not strings, such as dates that YAML turns into `Date` objects, are not modelled.
- Date parsing: `new Date(s).getTime()` is the parameter `parse`; the formats it accepts are not modelled.
- The comparator is not a consistent ordering when some dates are invalid. What a JavaScript engine's sort returns then is up to the engine. The model uses a stable insertion sort throughout. Agreement with any stable sort is proved only when every date is valid.
- `$` patterns in the replacement string of `replace`: the only replacement used is `""`, which has none.
- Rendering the feed to XML (`feed.xml({ indent: true })`) and writing `public/rss.xml`: the document is the channel and its item list. The library's escaping and date formatting are not modelled. The function's `async` wrapper is left out.
- The React pages that use these functions, apart from the `Array.from` of the count table, which `CategoryCountEntries` models. The slice of the index that the home page shows is not modelled.
- `Posts.FetchPosts`: states only that its result is the index and its length. Permutation, order and stability are stated about the index by `Posts.IndexOrder`, so that callers of `FetchPosts` are not burdened with them.
- The category registry and post content rendering: outside the data layer modelled here.
- `Categories.FetchCategories`: returns a `set`, so the insertion order of the JavaScript `Set` is not modelled. Its only consumer builds the static paths of the category pages, where order does not matter.
