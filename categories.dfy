/** The category aggregator: the set of categories of the indexed posts, and an
    insertion-ordered table counting the posts of each category. */
module Categories {
  import opened Wrappers
  import opened Posts
  import opened OrderedMaps

  /** A post's `category`; an absent one is `undefined`, which a `Set` or a
      `Map` holds like any other key. */
  type Category = Option<string>

  // ---------------------------------------------------------------------------
  // Specification

  /** The categories that occur in `posts`. */
  function CategoriesOf(posts: seq<Post>): set<Category> {
    set i | 0 <= i < |posts| :: posts[i].category
  }

  /** The number of posts of category `c`. */
  function Count(posts: seq<Post>, c: Category): nat {
    if posts == [] then 0
    else Count(posts[..|posts| - 1], c) + (if posts[|posts| - 1].category == c then 1 else 0)
  }

  /** The categories of `posts` in order of first occurrence. */
  function FirstSeen(posts: seq<Post>): seq<Category> {
    if posts == [] then []
    else
      var keys, c := FirstSeen(posts[..|posts| - 1]), posts[|posts| - 1].category;
      if c in keys then keys else keys + [c]
  }

  predicate Distinct<T(==)>(s: seq<T>) {
    forall i, j :: 0 <= i < j < |s| ==> s[i] != s[j]
  }

  /** The counts of the categories `keys`, added up. */
  function TotalCount(keys: seq<Category>, posts: seq<Post>): int {
    if keys == [] then 0
    else TotalCount(keys[..|keys| - 1], posts) + Count(posts, keys[|keys| - 1])
  }

  /** The counts of a list of `[category, count]` pairs, added up. */
  function SumOfCounts(pairs: seq<(Category, int)>): int {
    if pairs == [] then 0
    else SumOfCounts(pairs[..|pairs| - 1]) + pairs[|pairs| - 1].1
  }

  // ---------------------------------------------------------------------------
  // Lemmas

  /** One more post: its category is appended unless already seen. */
  lemma FirstSeenAppend(s: seq<Post>, p: Post)
    ensures FirstSeen(s + [p]) == if p.category in FirstSeen(s) then FirstSeen(s) else FirstSeen(s) + [p.category]
  {
    assert (s + [p])[..|s|] == s;
  }

  /** One more post adds one to the count of its own category only. */
  lemma CountAppendOne(s: seq<Post>, p: Post, c: Category)
    ensures Count(s + [p], c) == Count(s, c) + (if p.category == c then 1 else 0)
  {
    assert (s + [p])[..|s|] == s;
  }

  lemma CategoriesOfAppend(s: seq<Post>, p: Post)
    ensures CategoriesOf(s + [p]) == CategoriesOf(s) + {p.category}
  {
    var t := s + [p];
    assert t[|s|] == p;
    forall c | c in CategoriesOf(s)
      ensures c in CategoriesOf(t)
    {
      var i :| 0 <= i < |s| && s[i].category == c;
      assert t[i] == s[i];
    }
  }

  /** The first-seen list holds every category of the posts exactly once. */
  lemma {:induction false} FirstSeenKeys(s: seq<Post>)
    ensures forall c :: c in FirstSeen(s) <==> c in CategoriesOf(s)
    ensures Distinct(FirstSeen(s))
  {
    if s != [] {
      var init, p := s[..|s| - 1], s[|s| - 1];
      FirstSeenKeys(init);
      CategoriesOfAppend(init, p);
      SplitLast(s);
    }
  }

  /** A category has a positive count exactly when it occurs. */
  lemma {:induction false} CountPositive(s: seq<Post>, c: Category)
    ensures Count(s, c) > 0 <==> c in CategoriesOf(s)
  {
    if s != [] {
      var init, p := s[..|s| - 1], s[|s| - 1];
      CountPositive(init, c);
      CategoriesOfAppend(init, p);
      SplitLast(s);
    }
  }

  /** Keys listed in order of first occurrence: every post whose category is
      listed at `j` is preceded by a post of the category listed at `i < j`. */
  ghost predicate FirstOccurrencesOrdered(s: seq<Post>) {
    forall i, j, n :: 0 <= i < j < |FirstSeen(s)| && 0 <= n < |s| && s[n].category == FirstSeen(s)[j] ==>
      exists m :: 0 <= m < n && s[m].category == FirstSeen(s)[i]
  }

  /** One instance of the first-occurrence order. */
  lemma OrderedAt(s: seq<Post>, i: nat, j: nat, n: nat)
    requires FirstOccurrencesOrdered(s)
    requires i < j < |FirstSeen(s)| && n < |s| && s[n].category == FirstSeen(s)[j]
    ensures exists m :: 0 <= m < n && s[m].category == FirstSeen(s)[i]
  {
  }

  /** A category listed first-seen occurs at some position. */
  lemma FirstSeenOccurs(s: seq<Post>, c: Category)
    requires c in FirstSeen(s)
    ensures exists n :: 0 <= n < |s| && s[n].category == c
  {
    FirstSeenKeys(s);
  }

  /** One instance of the order after appending a post of a known category. */
  lemma FirstSeenOrderOldAt(init: seq<Post>, p: Post, i: nat, j: nat, n: nat)
    requires FirstOccurrencesOrdered(init)
    requires i < j < |FirstSeen(init)| && n <= |init|
    requires (init + [p])[n].category == FirstSeen(init)[j]
    ensures exists m :: 0 <= m < n && (init + [p])[m].category == FirstSeen(init)[i]
  {
    var s, keys := init + [p], FirstSeen(init);
    var n0: nat;
    if n == |init| {
      // the category was seen before, at some earlier position
      FirstSeenOccurs(init, keys[j]);
      n0 :| 0 <= n0 < |init| && init[n0].category == keys[j];
    } else {
      n0 := n;
      assert init[n0] == s[n];
    }
    OrderedAt(init, i, j, n0);
    var m :| 0 <= m < n0 && init[m].category == keys[i];
    assert s[m] == init[m];
  }

  /** The order survives appending a post whose category was already seen. */
  lemma FirstSeenOrderOld(init: seq<Post>, p: Post)
    requires FirstOccurrencesOrdered(init)
    requires p.category in FirstSeen(init)
    ensures FirstOccurrencesOrdered(init + [p])
  {
    var s, keys := init + [p], FirstSeen(init);
    FirstSeenAppend(init, p);
    forall i, j, n | 0 <= i < j < |keys| && 0 <= n < |s| && s[n].category == keys[j]
      ensures exists m :: 0 <= m < n && s[m].category == keys[i]
    {
      FirstSeenOrderOldAt(init, p, i, j, n);
    }
  }

  /** The order survives appending a post of a new category, which is listed
      last. */
  lemma FirstSeenOrderNew(init: seq<Post>, p: Post)
    requires FirstOccurrencesOrdered(init)
    requires p.category !in FirstSeen(init)
    ensures FirstOccurrencesOrdered(init + [p])
  {
    var s, keys := init + [p], FirstSeen(init);
    var keys' := keys + [p.category];
    FirstSeenAppend(init, p);
    FirstSeenKeys(init);
    forall i, j, n | 0 <= i < j < |keys'| && 0 <= n < |s| && s[n].category == keys'[j]
      ensures exists m :: 0 <= m < n && s[m].category == keys'[i]
    {
      if j == |keys| {
        // every earlier key occurs somewhere in init
        assert keys[i] in CategoriesOf(init);
        var m :| 0 <= m < |init| && init[m].category == keys[i];
        assert s[m] == init[m];
      } else {
        assert s[n] == init[n];
        OrderedAt(init, i, j, n);
        var m :| 0 <= m < n && init[m].category == keys[i];
        assert s[m] == init[m];
      }
    }
  }

  /** First-occurrence order holds for every sequence of posts. */
  lemma {:induction false} FirstSeenOrder(s: seq<Post>)
    ensures FirstOccurrencesOrdered(s)
  {
    if s != [] {
      var init, p := s[..|s| - 1], s[|s| - 1];
      FirstSeenOrder(init);
      SplitLast(s);
      if p.category in FirstSeen(init) {
        FirstSeenOrderOld(init, p);
      } else {
        FirstSeenOrderNew(init, p);
      }
    }
  }

  lemma {:induction false} CountAppend(a: seq<Post>, b: seq<Post>, c: Category)
    ensures Count(a + b, c) == Count(a, c) + Count(b, c)
  {
    if b == [] {
      assert a + b == a;
    } else {
      CountAppend(a, b[..|b| - 1], c);
      assert (a + b)[..|a + b| - 1] == a + b[..|b| - 1];
    }
  }

  /** Taking one post out of a sequence lowers the count of its category by one. */
  lemma CountRemove(t: seq<Post>, i: nat, c: Category)
    requires i < |t|
    ensures Count(t, c) == Count(t[..i] + t[i + 1..], c) + (if t[i].category == c then 1 else 0)
  {
    assert t == t[..i] + [t[i]] + t[i + 1..];
    CountAppend(t[..i], [t[i]], c);
    CountAppend(t[..i] + [t[i]], t[i + 1..], c);
    CountAppend(t[..i], t[i + 1..], c);
    assert [t[i]][..0] == [];
  }

  lemma MultisetRemove(t: seq<Post>, i: nat)
    requires i < |t|
    ensures multiset(t[..i] + t[i + 1..]) == multiset(t) - multiset{t[i]}
  {
    assert t == t[..i] + [t[i]] + t[i + 1..];
    assert multiset(t) == multiset(t[..i]) + multiset{t[i]} + multiset(t[i + 1..]);
  }

  /** Counts do not depend on the order of the posts. */
  lemma {:induction false} CountPermutation(s: seq<Post>, t: seq<Post>, c: Category)
    requires multiset(s) == multiset(t)
    ensures Count(s, c) == Count(t, c)
    decreases |s|
  {
    if s == [] {
      assert |t| == |multiset(t)| == 0;
    } else {
      var init, x := s[..|s| - 1], s[|s| - 1];
      assert x in multiset(t) by {
        assert x in multiset(s);
      }
      var i :| 0 <= i < |t| && t[i] == x;
      var t' := t[..i] + t[i + 1..];
      assert multiset(init) == multiset(t') by {
        SplitLast(s);
        MultisetRemove(t, i);
      }
      CountPermutation(init, t', c);
      CountRemove(t, i, c);
      assert Count(s, c) == Count(init, c) + (if x.category == c then 1 else 0);
    }
  }

  lemma CategoriesPermutation(s: seq<Post>, t: seq<Post>)
    requires multiset(s) == multiset(t)
    ensures CategoriesOf(s) == CategoriesOf(t)
  {
    forall c | c in CategoriesOf(s)
      ensures c in CategoriesOf(t)
    {
      var i :| 0 <= i < |s| && s[i].category == c;
      assert s[i] in multiset(t);
      var j :| 0 <= j < |t| && t[j] == s[i];
    }
    forall c | c in CategoriesOf(t)
      ensures c in CategoriesOf(s)
    {
      var j :| 0 <= j < |t| && t[j].category == c;
      assert t[j] in multiset(s);
      var i :| 0 <= i < |s| && s[i] == t[j];
    }
  }

  lemma {:induction false} TotalCountAppend(keys: seq<Category>, s: seq<Post>, p: Post)
    requires Distinct(keys)
    ensures TotalCount(keys, s + [p]) == TotalCount(keys, s) + (if p.category in keys then 1 else 0)
  {
    if keys != [] {
      var init, last := keys[..|keys| - 1], keys[|keys| - 1];
      TotalCountAppend(init, s, p);
      SplitLast(keys);
      assert (s + [p])[..|s|] == s;
    }
  }

  /** The counts of all categories add up to the number of posts. */
  lemma {:induction false} CountsSumToTotal(s: seq<Post>)
    ensures TotalCount(FirstSeen(s), s) == |s|
  {
    if s != [] {
      var init, p := s[..|s| - 1], s[|s| - 1];
      var keys := FirstSeen(init);
      CountsSumToTotal(init);
      FirstSeenKeys(init);
      TotalCountAppend(keys, init, p);
      SplitLast(s);
      if p.category !in keys {
        CountPositive(init, p.category);
        assert Count(s, p.category) == 1;
        assert (keys + [p.category])[..|keys|] == keys;
      }
    }
  }

  /** The pairs of a count table add up to the counts of its keys. */
  lemma {:induction false} SumOfTable(pairs: seq<(Category, int)>, keys: seq<Category>, s: seq<Post>)
    requires |pairs| == |keys|
    requires forall i :: 0 <= i < |pairs| ==> pairs[i] == (keys[i], Count(s, keys[i]))
    ensures SumOfCounts(pairs) == TotalCount(keys, s)
  {
    if pairs != [] {
      SumOfTable(pairs[..|pairs| - 1], keys[..|keys| - 1], s);
    }
  }

  // ---------------------------------------------------------------------------
  // The imperative aggregator

  /** The categories of the records are those the listing's front-matter gives. */
  lemma CategoriesOfRecords(listing: seq<Entry>)
    ensures forall c :: c in CategoriesOf(Records(listing)) <==>
              exists i :: 0 <= i < |listing| && ToPost(listing[i]).category == c
  {
    var r := Records(listing);
    RecordsAt(listing);
    forall c | c in CategoriesOf(r)
      ensures exists i :: 0 <= i < |listing| && ToPost(listing[i]).category == c
    {
      var i :| 0 <= i < |r| && r[i].category == c;
      assert ToPost(listing[i]) == r[i];
    }
    forall c | exists i :: 0 <= i < |listing| && ToPost(listing[i]).category == c
      ensures c in CategoriesOf(r)
    {
      var i :| 0 <= i < |listing| && ToPost(listing[i]).category == c;
      assert r[i] == ToPost(listing[i]);
    }
  }

  /** Sorting does not change which categories occur. */
  lemma CategoriesOfIndex(listing: seq<Entry>, parse: DateParser)
    ensures CategoriesOf(Index(listing, parse)) == CategoriesOf(Records(listing))
    ensures forall c :: c in CategoriesOf(Index(listing, parse)) <==>
              exists i :: 0 <= i < |listing| && ToPost(listing[i]).category == c
  {
    SortPermutes(Records(listing), parse);
    CategoriesPermutation(Index(listing, parse), Records(listing));
    CategoriesOfRecords(listing);
  }

  /** `fetchCategories`: every post's category added to a `Set`. */
  method FetchCategories(listing: seq<Entry>, parse: DateParser) returns (categories: set<Category>)
    ensures categories == CategoriesOf(Index(listing, parse))
    ensures forall c :: c in categories <==> exists i :: 0 <= i < |listing| && ToPost(listing[i]).category == c
  {
    categories := {};
    var posts := FetchPosts(listing, parse);
    for k := 0 to |posts|
      invariant categories == CategoriesOf(posts[..k])
    {
      ghost var seen := posts[..k];
      assert posts[..k + 1] == seen + [posts[k]];
      CategoriesOfAppend(seen, posts[k]);
      categories := categories + {posts[k].category};
    }
    assert posts[..|posts|] == posts;
    CategoriesOfIndex(listing, parse);
  }

  /** `table` holds exactly the category counts of `s`, keys in order of first
      occurrence. */
  ghost predicate Tallies(table: OrderedMap<Category, int>, s: seq<Post>) {
    && table.Valid()
    && table.keys == FirstSeen(s)
    && forall c :: c in table.values ==> table.values[c] == Count(s, c)
  }

  /** The `has` branch, `set(c, get(c)! + 1)`: a category already in the
      table gets one more. */
  lemma TallyIncrement(table: OrderedMap<Category, int>, s: seq<Post>, p: Post)
    requires Tallies(table, s) && table.Has(p.category)
    ensures Tallies(table.Set(p.category, table.Get(p.category) + 1), s + [p])
  {
    FirstSeenAppend(s, p);
    var table' := table.Set(p.category, table.Get(p.category) + 1);
    forall d | d in table'.values
      ensures table'.values[d] == Count(s + [p], d)
    {
      CountAppendOne(s, p, d);
    }
  }

  /** The other branch, `set(c, 1)`: a category seen for the first time is
      created with 1 and goes to the end of the key order. */
  lemma TallyInsert(table: OrderedMap<Category, int>, s: seq<Post>, p: Post)
    requires Tallies(table, s) && !table.Has(p.category)
    ensures Tallies(table.Set(p.category, 1), s + [p])
  {
    FirstSeenAppend(s, p);
    CountPositive(s, p.category);
    FirstSeenKeys(s);
    var table' := table.Set(p.category, 1);
    forall d | d in table'.values
      ensures table'.values[d] == Count(s + [p], d)
    {
      CountAppendOne(s, p, d);
    }
  }

  /** The loop's step, for the post at index `k`. */
  lemma TallyStep(table: OrderedMap<Category, int>, posts: seq<Post>, k: nat)
    requires k < |posts| && Tallies(table, posts[..k])
    ensures table.Has(posts[k].category) ==>
              Tallies(table.Set(posts[k].category, table.Get(posts[k].category) + 1), posts[..k + 1])
    ensures !table.Has(posts[k].category) ==> Tallies(table.Set(posts[k].category, 1), posts[..k + 1])
  {
    assert posts[..k + 1] == posts[..k] + [posts[k]];
    if table.Has(posts[k].category) {
      TallyIncrement(table, posts[..k], posts[k]);
    } else {
      TallyInsert(table, posts[..k], posts[k]);
    }
  }

  /** A table that tallies the sorted posts tallies the unsorted records too,
      and holds no zero count. */
  lemma TallyOfReordered(table: OrderedMap<Category, int>, posts: seq<Post>, records: seq<Post>)
    requires Tallies(table, posts)
    requires multiset(posts) == multiset(records)
    ensures forall c :: c in table.values <==> c in CategoriesOf(records)
    ensures forall c :: c in table.values ==> table.values[c] == Count(records, c)
    ensures forall c :: c in table.values ==> table.values[c] >= 1
  {
    FirstSeenKeys(posts);
    CategoriesPermutation(posts, records);
    forall c | c in table.values
      ensures table.values[c] == Count(records, c) && table.values[c] >= 1
    {
      CountPermutation(posts, records, c);
      CountPositive(posts, c);
    }
  }

  /** A table that tallies the index describes the records of the listing. */
  lemma TallyOfIndex(table: OrderedMap<Category, int>, listing: seq<Entry>, parse: DateParser)
    requires Tallies(table, Index(listing, parse))
    ensures table.Valid()
    ensures table.keys == FirstSeen(Index(listing, parse))
    ensures forall c :: c in table.values <==> c in CategoriesOf(Records(listing))
    ensures forall c :: c in table.values ==> table.values[c] == Count(Records(listing), c)
    ensures forall c :: c in table.values ==> table.values[c] >= 1
    ensures table.values.Keys == CategoriesOf(Index(listing, parse))
  {
    SortPermutes(Records(listing), parse);
    TallyOfReordered(table, Index(listing, parse), Records(listing));
    CategoriesOfIndex(listing, parse);
  }

  /** `fetchCategoriesAndCounts`: one pass over the posts, adding 1 to a
      category's entry when it is present and creating it with 1 otherwise. */
  method FetchCategoriesAndCounts(listing: seq<Entry>, parse: DateParser) returns (table: OrderedMap<Category, int>)
    ensures table.Valid()
    ensures table.keys == FirstSeen(Index(listing, parse))
    ensures forall c :: c in table.values <==> c in CategoriesOf(Records(listing))
    ensures forall c :: c in table.values ==> table.values[c] == Count(Records(listing), c)
    ensures forall c :: c in table.values ==> table.values[c] >= 1
    ensures table.values.Keys == CategoriesOf(Index(listing, parse))
  {
    table := Empty();
    var posts := FetchPosts(listing, parse);
    for k := 0 to |posts|
      invariant Tallies(table, posts[..k])
    {
      TallyStep(table, posts, k);
      var c := posts[k].category;
      if table.Has(c) {
        table := table.Set(c, table.Get(c) + 1);
      } else {
        table := table.Set(c, 1);
      }
    }
    assert posts[..|posts|] == posts;
    TallyOfIndex(table, listing, parse);
  }

  /** The entries of a table keyed by first occurrence in `posts` and counting
      a permutation of them: each key once, each count at least 1, and the
      counts adding up to the number of posts. */
  lemma TableEntries(table: OrderedMap<Category, int>, posts: seq<Post>, records: seq<Post>)
    requires table.Valid() && table.keys == FirstSeen(posts)
    requires forall c :: c in table.values ==> table.values[c] == Count(records, c)
    requires multiset(posts) == multiset(records)
    ensures Distinct(FirstSeen(posts))
    ensures |table.Entries()| == |FirstSeen(posts)|
    ensures forall i :: 0 <= i < |table.Entries()| ==>
              table.Entries()[i] == (FirstSeen(posts)[i], Count(records, FirstSeen(posts)[i]))
    ensures forall i :: 0 <= i < |table.Entries()| ==> table.Entries()[i].1 >= 1
    ensures SumOfCounts(table.Entries()) == |records|
  {
    var entries, keys := table.Entries(), table.keys;
    FirstSeenKeys(posts);
    forall i | 0 <= i < |entries|
      ensures entries[i] == (keys[i], Count(posts, keys[i])) && entries[i].1 >= 1
    {
      CountPermutation(posts, records, keys[i]);
      CountPositive(posts, keys[i]);
    }
    SumOfTable(entries, keys, posts);
    CountsSumToTotal(posts);
    assert |multiset(posts)| == |multiset(records)|;
  }

  /** The `[category, count]` pairs the all-posts page shows, in the table's
      key order. */
  method CategoryCountEntries(listing: seq<Entry>, parse: DateParser) returns (entries: seq<(Category, int)>)
    ensures Distinct(FirstSeen(Index(listing, parse)))
    ensures |entries| == |FirstSeen(Index(listing, parse))|
    ensures forall i :: 0 <= i < |entries| ==>
              entries[i] == (FirstSeen(Index(listing, parse))[i], Count(Records(listing), FirstSeen(Index(listing, parse))[i]))
    ensures forall i :: 0 <= i < |entries| ==> entries[i].1 >= 1
    ensures SumOfCounts(entries) == |listing|
  {
    var table := FetchCategoriesAndCounts(listing, parse);
    entries := table.Entries();
    SortPermutes(Records(listing), parse);
    TableEntries(table, Index(listing, parse), Records(listing));
  }
}
