/** The feed generator: a channel with fixed metadata and one item for each of
    the 20 newest posts, in index order. The XML text and the file write are
    not modelled; the document is the channel and its list of items. */
module Feed {
  import opened Wrappers
  import opened Strings
  import opened Posts

  /** The base URL every link starts from. */
  const SiteUrl: string := "https://blog.jeffreyshum.com/"

  /** At most this many posts become items. */
  const ItemLimit: nat := 20

  /** The channel options handed to the feed library. */
  datatype Channel = Channel(
    title: string,
    feedUrl: string,
    siteUrl: string,
    description: string,
    copyright: string,
    language: string)

  /** The options handed to `feed.item` for one post. */
  datatype FeedItem = FeedItem(
    title: Option<string>,
    description: Option<string>,
    url: string,
    date: Option<string>,
    categories: seq<Option<string>>)

  /** What the feed serialises: its channel and its items, in order. */
  datatype Document = Document(channel: Channel, items: seq<FeedItem>)

  const BlogChannel: Channel := Channel(
    "Jeffrey Shum's Blog",
    SiteUrl + "rss.xml",
    SiteUrl,
    "Jeffrey Shum's blog featuring developer logs and occasional dabbles in mathematics.",
    "2023-Present Jeffrey Shum",
    "en")

  /** The item for one post: its fields unchanged, the link the plain
      concatenation of the base URL and the post's URL, and its category as a
      one-element list. */
  function ItemOf(p: Post): FeedItem {
    FeedItem(p.title, p.description, SiteUrl + p.url, p.originalDate, [p.category])
  }

  function Min(a: int, b: int): int {
    if a < b then a else b
  }

  /** The feed object: fixed channel options and the items added so far. */
  class Rss {
    const channel: Channel
    var items: seq<FeedItem>

    /** `new RSS(options)` */
    constructor (options: Channel)
      ensures channel == options && items == []
    {
      channel := options;
      items := [];
    }

    /** `feed.item(options)`: appends one item. */
    method Item(item: FeedItem)
      modifies this
      ensures items == old(items) + [item]
    {
      items := items + [item];
    }

    /** `feed.xml()`, taken as the document it renders. */
    function Xml(): Document
      reads this
    {
      Document(channel, items)
    }
  }

  /** `generateFeed`: every post of the index is visited, and the first
      `ItemLimit` of them are added as items. */
  method GenerateFeed(listing: seq<Entry>, parse: DateParser) returns (doc: Document)
    ensures doc.channel == BlogChannel
    ensures doc.channel.feedUrl == SiteUrl + "rss.xml" && doc.channel.siteUrl == SiteUrl
    ensures |doc.items| == Min(ItemLimit, |listing|)
    ensures forall i :: 0 <= i < |doc.items| ==> doc.items[i] == ItemOf(Index(listing, parse)[i])
    ensures forall i :: 0 <= i < |doc.items| ==>
              doc.items[i].url == SiteUrl + Index(listing, parse)[i].url &&
              doc.items[i].categories == [Index(listing, parse)[i].category]
    ensures forall i :: 0 <= i < |doc.items| ==>
              doc.items[i].title == Index(listing, parse)[i].title &&
              doc.items[i].description == Index(listing, parse)[i].description &&
              doc.items[i].date == Index(listing, parse)[i].originalDate
  {
    var feed := new Rss(BlogChannel);
    var posts := FetchPosts(listing, parse);
    for i := 0 to |posts|
      invariant feed.channel == BlogChannel
      invariant |feed.items| == Min(i, ItemLimit)
      invariant forall j :: 0 <= j < |feed.items| ==> feed.items[j] == ItemOf(posts[j])
    {
      if i >= ItemLimit {
        continue;
      }
      feed.Item(ItemOf(posts[i]));
    }
    doc := feed.Xml();
  }

  /** The link of every item has a doubled `/` where the base URL and the
      post's URL meet, since both supply one: no normalisation happens. */
  lemma ItemUrlDoubleSlash(e: Entry)
    ensures OccursAt(ItemOf(ToPost(e)).url, "//", |SiteUrl| - 1)
  {
    var url := ItemOf(ToPost(e)).url;
    PostUrlShape(e.fileName);
    assert url[|SiteUrl| - 1] == '/';
    assert url[|SiteUrl|] == ToPost(e).url[0] == '/';
    assert url[|SiteUrl| - 1..|SiteUrl| + 1] == "//";
  }

  /** The item of `stem.mdx` links to the base URL, a second `/`, and the
      stem. */
  lemma ItemUrlOfMdxFile(e: Entry, stem: string)
    requires e.fileName == stem + Extension && !Contains(stem, Extension)
    ensures ItemOf(ToPost(e)).url == SiteUrl + "/" + stem
  {
    UrlOfMdxFile(stem);
  }

  /** With every date valid, no post left out of the feed is newer than one in
      it. */
  lemma FeedHoldsNewest(listing: seq<Entry>, parse: DateParser, i: nat, j: nat)
    requires AllDated(Records(listing), parse)
    requires i < ItemLimit <= j < |listing|
    ensures !Later(Stamp(Index(listing, parse)[j], parse), Stamp(Index(listing, parse)[i], parse))
  {
    IndexOrder(listing, parse);
  }
}
