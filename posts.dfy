/** The post indexer: one record per file of the `posts` directory, each built
    from the file's front-matter and name, then sorted newest first by a stable
    in-place sort whose comparator parses `originalDate`. */
module Posts {
  import opened Wrappers
  import opened Strings

  /** Parsed front-matter: key to value. A key that is absent reads as
      `undefined`. */
  type FrontMatter = map<string, string>

  /** One entry of the flat listing of the `posts` directory, with the
      front-matter its file carries. */
  datatype Entry = Entry(fileName: string, frontMatter: FrontMatter)

  /** The `Post` record; a field whose key is missing holds `None`. */
  datatype Post = Post(
    title: Option<string>,
    description: Option<string>,
    originalDate: Option<string>,
    keywords: Option<string>,
    url: string,
    category: Option<string>)

  /** `new Date(s).getTime()` on a present date string: `None` is NaN, the
      time of an invalid date. */
  type DateParser = string -> Option<int>

  const Extension: string := ".mdx"

  // ---------------------------------------------------------------------------
  // Record construction

  /** `frontMatter.data[key]`. */
  function Field(fm: FrontMatter, key: string): Option<string> {
    if key in fm then Some(fm[key]) else None
  }

  /** The field holds exactly what the front-matter says under `key`, and is
      undefined when the key is missing. */
  predicate CopiedFrom(v: Option<string>, fm: FrontMatter, key: string) {
    if key in fm then v == Some(fm[key]) else v == None
  }

  /** The URL of a post: `/` followed by its file name with the first `.mdx`
      removed. */
  function PostUrl(fileName: string): string {
    "/" + ReplaceFirst(fileName, Extension, "")
  }

  /** The URL always starts with `/`; a name without `.mdx` is kept whole, and
      otherwise exactly the leftmost `.mdx` is cut out. */
  lemma PostUrlShape(fileName: string)
    ensures |PostUrl(fileName)| >= 1 && PostUrl(fileName)[0] == '/'
    ensures !Contains(fileName, Extension) ==> PostUrl(fileName) == "/" + fileName
    ensures forall i: nat :: FirstOccurrence(fileName, Extension, i) ==>
              PostUrl(fileName) == "/" + fileName[..i] + fileName[i + |Extension|..]
  {
    ReplaceFirstSpec(fileName, Extension, "");
  }

  /** The record pushed for one directory entry. */
  function ToPost(e: Entry): Post {
    var fm := e.frontMatter;
    Post(Field(fm, "title"), Field(fm, "description"), Field(fm, "originalDate"),
         Field(fm, "keywords"), PostUrl(e.fileName), Field(fm, "category"))
  }

  /** Each field is copied from the front-matter, undefined when its key is
      missing, and the URL is derived from the file name alone. */
  lemma ToPostFields(e: Entry)
    ensures CopiedFrom(ToPost(e).title, e.frontMatter, "title")
    ensures CopiedFrom(ToPost(e).description, e.frontMatter, "description")
    ensures CopiedFrom(ToPost(e).originalDate, e.frontMatter, "originalDate")
    ensures CopiedFrom(ToPost(e).keywords, e.frontMatter, "keywords")
    ensures CopiedFrom(ToPost(e).category, e.frontMatter, "category")
    ensures ToPost(e).url == PostUrl(e.fileName)
  {
  }

  /** The records in listing order, as the loop pushes them. */
  function Records(listing: seq<Entry>): (r: seq<Post>)
    ensures |r| == |listing|
  {
    if listing == [] then []
    else Records(listing[..|listing| - 1]) + [ToPost(listing[|listing| - 1])]
  }

  /** The record at each position is the one built from the entry there. */
  lemma {:induction false} RecordsAt(listing: seq<Entry>)
    ensures forall i :: 0 <= i < |listing| ==> Records(listing)[i] == ToPost(listing[i])
  {
    if listing != [] {
      var init := listing[..|listing| - 1];
      RecordsAt(init);
      assert Records(listing) == Records(init) + [ToPost(listing[|listing| - 1])];
      forall i | 0 <= i < |init|
        ensures Records(listing)[i] == ToPost(listing[i])
      {
        assert Records(listing)[i] == Records(init)[i];
        assert init[i] == listing[i];
      }
    }
  }

  /** In `stem.mdx...`, where `stem` has no `.mdx` of its own, the leftmost
      `.mdx` is the one right after the stem. */
  lemma FirstExtensionAfterStem(stem: string, rest: string)
    requires !Contains(stem, Extension)
    ensures FirstOccurrence(stem + Extension + rest, Extension, |stem|)
  {
    var name := stem + Extension + rest;
    var n := |stem|;
    assert OccursAt(name, Extension, n) by {
      assert name[n..n + 4] == Extension;
    }
    forall j: nat | j < n
      ensures !OccursAt(name, Extension, j)
    {
      if j + 4 <= n {
        assert name[j..j + 4] == stem[j..j + 4];
        assert !OccursAt(stem, Extension, j);
      } else {
        // the pattern would straddle the stem and the extension: the '.' at
        // index n would have to match one of "mdx"
        if j + 4 <= |name| {
          var k := n - j;
          assert name[j..j + 4][k] == name[n] == '.';
          assert Extension[k] != '.';
        }
      }
    }
  }

  /** A file named `stem.mdx`, where `stem` has no `.mdx` of its own, gets the
      URL `/stem`; so stripping the `/` and adding the extension gives back the
      file name. */
  lemma UrlOfMdxFile(stem: string)
    requires !Contains(stem, Extension)
    ensures PostUrl(stem + Extension) == "/" + stem
    ensures PostUrl(stem + Extension)[1..] + Extension == stem + Extension
  {
    var name := stem + Extension;
    FirstExtensionAfterStem(stem, []);
    assert stem + Extension + [] == name;
    PostUrlShape(name);
    assert name[..|stem|] == stem;
    assert name[|stem| + 4..] == [];
  }

  /** Not an extension strip: only the first `.mdx` goes, so `stem.mdx.mdx`
      becomes `/stem.mdx`. */
  lemma OnlyFirstExtensionRemoved(stem: string)
    requires !Contains(stem, Extension)
    ensures PostUrl(stem + Extension + Extension) == "/" + stem + Extension
  {
    var name := stem + Extension + Extension;
    FirstExtensionAfterStem(stem, Extension);
    PostUrlShape(name);
    assert name[..|stem|] == stem;
    assert name[|stem| + 4..] == Extension;
  }

  // ---------------------------------------------------------------------------
  // The date comparator

  /** The parsed date of a post; `new Date(undefined)` is an invalid date. */
  function Stamp(p: Post, parse: DateParser): Option<int> {
    match p.originalDate
    case None => None
    case Some(d) => parse(d)
  }

  /** JavaScript's `x > y` on two `getTime()` values: false when either is NaN. */
  predicate Later(x: Option<int>, y: Option<int>) {
    x.Some? && y.Some? && x.value > y.value
  }

  /** The comparator handed to `sort`: negative puts `a` first. */
  function CompareByDate(a: Post, b: Post, parse: DateParser): (r: int)
    ensures r == -1 || r == 0 || r == 1
    ensures r < 0 <==> Later(Stamp(a, parse), Stamp(b, parse))
    ensures r > 0 <==> Later(Stamp(b, parse), Stamp(a, parse))
    ensures Stamp(a, parse).None? || Stamp(b, parse).None? ==> r == 0
  {
    var ta, tb := Stamp(a, parse), Stamp(b, parse);
    if Later(ta, tb) then -1
    else if Later(tb, ta) then 1
    else 0
  }

  /** The comparator is antisymmetric, and it answers 0 exactly when neither
      date is strictly later, an invalid date included. */
  lemma CompareAntisymmetric(a: Post, b: Post, parse: DateParser)
    ensures CompareByDate(a, b, parse) == -CompareByDate(b, a, parse)
    ensures CompareByDate(a, b, parse) == 0 <==>
              !Later(Stamp(a, parse), Stamp(b, parse)) && !Later(Stamp(b, parse), Stamp(a, parse))
  {
  }

  // ---------------------------------------------------------------------------
  // The sort, as a function: insertion from the right, stopping at the first
  // element that does not compare greater

  /** Inserts `x` into `s` the way the array sort does: it moves left past every
      element the comparator ranks after `x`. */
  function Insert(s: seq<Post>, x: Post, parse: DateParser): (r: seq<Post>)
    ensures |r| == |s| + 1
  {
    if s == [] then [x]
    else if CompareByDate(s[|s| - 1], x, parse) > 0 then Insert(s[..|s| - 1], x, parse) + [s[|s| - 1]]
    else s + [x]
  }

  /** The order the sort leaves the posts in. */
  function SortByDate(s: seq<Post>, parse: DateParser): (r: seq<Post>)
    ensures |r| == |s|
  {
    if s == [] then []
    else Insert(SortByDate(s[..|s| - 1], parse), s[|s| - 1], parse)
  }

  /** The index as `fetchPosts` returns it: one post per directory entry. */
  function Index(listing: seq<Entry>, parse: DateParser): seq<Post> {
    SortByDate(Records(listing), parse)
  }

  /** Every post has a valid date. */
  predicate AllDated(s: seq<Post>, parse: DateParser) {
    forall i :: 0 <= i < |s| ==> Stamp(s[i], parse).Some?
  }

  /** No post is strictly newer than one before it. */
  predicate NewestFirst(s: seq<Post>, parse: DateParser) {
    forall i, j :: 0 <= i < j < |s| ==> !Later(Stamp(s[j], parse), Stamp(s[i], parse))
  }

  /** The posts of `s` whose parsed date is `k`, in their order in `s`. */
  function WithStamp(s: seq<Post>, k: Option<int>, parse: DateParser): seq<Post> {
    if s == [] then []
    else WithStamp(s[..|s| - 1], k, parse) + (if Stamp(s[|s| - 1], parse) == k then [s[|s| - 1]] else [])
  }

  // ---------------------------------------------------------------------------
  // Permutation

  lemma {:induction false} InsertPermutes(s: seq<Post>, x: Post, parse: DateParser)
    ensures multiset(Insert(s, x, parse)) == multiset(s) + multiset{x}
  {
    if s != [] && CompareByDate(s[|s| - 1], x, parse) > 0 {
      var init := s[..|s| - 1];
      InsertPermutes(init, x, parse);
      SplitLast(s);
    }
  }

  /** Sorting neither adds nor drops posts. */
  lemma {:induction false} SortPermutes(s: seq<Post>, parse: DateParser)
    ensures multiset(SortByDate(s, parse)) == multiset(s)
  {
    if s != [] {
      var init, x := s[..|s| - 1], s[|s| - 1];
      SortPermutes(init, parse);
      InsertPermutes(SortByDate(init, parse), x, parse);
      SplitLast(s);
    }
  }

  lemma AllDatedPermutation(s: seq<Post>, t: seq<Post>, parse: DateParser)
    requires multiset(s) == multiset(t)
    requires AllDated(s, parse)
    ensures AllDated(t, parse)
  {
    forall i | 0 <= i < |t|
      ensures Stamp(t[i], parse).Some?
    {
      assert t[i] in multiset(s);
      var k :| 0 <= k < |s| && s[k] == t[i];
    }
  }

  // ---------------------------------------------------------------------------
  // Newest first

  /** Appending a post no newer than any before it keeps the order. */
  lemma AppendOldest(r: seq<Post>, y: Post, parse: DateParser)
    requires NewestFirst(r, parse)
    requires forall i :: 0 <= i < |r| ==> !Later(Stamp(y, parse), Stamp(r[i], parse))
    ensures NewestFirst(r + [y], parse)
  {
    var r' := r + [y];
    forall i, j | 0 <= i < j < |r'|
      ensures !Later(Stamp(r'[j], parse), Stamp(r'[i], parse))
    {
      assert r'[i] == r[i];
      if j < |r| {
        assert r'[j] == r[j];
      }
    }
  }

  lemma {:induction false} InsertNewestFirst(s: seq<Post>, x: Post, parse: DateParser)
    requires AllDated(s, parse) && Stamp(x, parse).Some?
    requires NewestFirst(s, parse)
    ensures NewestFirst(Insert(s, x, parse), parse)
  {
    if s == [] {
    } else if CompareByDate(s[|s| - 1], x, parse) > 0 {
      var init, last := s[..|s| - 1], s[|s| - 1];
      PrefixOrdered(s, |s| - 1, parse);
      InsertNewestFirst(init, x, parse);
      var ins := Insert(init, x, parse);
      forall i | 0 <= i < |ins|
        ensures !Later(Stamp(last, parse), Stamp(ins[i], parse))
      {
        assert ins[i] in multiset(init) + multiset{x} by {
          InsertPermutes(init, x, parse);
        }
        if ins[i] != x {
          assert ins[i] in multiset(init);
          var k :| 0 <= k < |init| && init[k] == ins[i];
          assert s[k] == init[k];
        }
      }
      AppendOldest(ins, last, parse);
    } else {
      var last := s[|s| - 1];
      forall i | 0 <= i < |s|
        ensures !Later(Stamp(x, parse), Stamp(s[i], parse))
      {
        if i < |s| - 1 {
          assert !Later(Stamp(last, parse), Stamp(s[i], parse));
        }
      }
      AppendOldest(s, x, parse);
    }
  }


  /** When every date is valid, the sort leaves the posts newest first. */
  lemma {:induction false} SortNewestFirst(s: seq<Post>, parse: DateParser)
    requires AllDated(s, parse)
    ensures NewestFirst(SortByDate(s, parse), parse)
  {
    if s != [] {
      var init := s[..|s| - 1];
      SortNewestFirst(init, parse);
      SortPermutes(init, parse);
      AllDatedPermutation(init, SortByDate(init, parse), parse);
      InsertNewestFirst(SortByDate(init, parse), s[|s| - 1], parse);
    }
  }

  // ---------------------------------------------------------------------------
  // Stability

  lemma {:induction false} WithStampAppend(a: seq<Post>, b: seq<Post>, k: Option<int>, parse: DateParser)
    ensures WithStamp(a + b, k, parse) == WithStamp(a, k, parse) + WithStamp(b, k, parse)
  {
    if b != [] {
      var init, last := b[..|b| - 1], b[|b| - 1];
      WithStampAppend(a, init, k, parse);
      assert (a + b)[..|a + b| - 1] == a + init;
      assert (a + b)[|a + b| - 1] == last;
      var tail := if Stamp(last, parse) == k then [last] else [];
      calc {
        WithStamp(a + b, k, parse);
        WithStamp(a + init, k, parse) + tail;
        WithStamp(a, k, parse) + WithStamp(init, k, parse) + tail;
        WithStamp(a, k, parse) + (WithStamp(init, k, parse) + tail);
      }
    } else {
      assert a + b == a;
    }
  }

  /** The posts of a one-element sequence with date `k`. */
  lemma WithStampSingle(x: Post, k: Option<int>, parse: DateParser)
    ensures WithStamp([x], k, parse) == if Stamp(x, parse) == k then [x] else []
  {
    assert [x][..0] == [];
  }

  lemma {:induction false} InsertStable(s: seq<Post>, x: Post, k: Option<int>, parse: DateParser)
    ensures WithStamp(Insert(s, x, parse), k, parse) == WithStamp(s, k, parse) + WithStamp([x], k, parse)
  {
    if s == [] {
      assert Insert(s, x, parse) == [x];
      assert WithStamp(s, k, parse) == [];
    } else if CompareByDate(s[|s| - 1], x, parse) > 0 {
      var init, last := s[..|s| - 1], s[|s| - 1];
      var ins := Insert(init, x, parse);
      var wx, wl := WithStamp([x], k, parse), WithStamp([last], k, parse);
      // x moves only past posts with a strictly older date, so never past one
      // with the same date: one of wx and wl is empty
      WithStampSingle(x, k, parse);
      WithStampSingle(last, k, parse);
      assert wx == [] || wl == [];
      calc {
        WithStamp(Insert(s, x, parse), k, parse);
        { assert Insert(s, x, parse) == ins + [last]; }
        WithStamp(ins + [last], k, parse);
        { WithStampAppend(ins, [last], k, parse); }
        WithStamp(ins, k, parse) + wl;
        { InsertStable(init, x, k, parse); }
        WithStamp(init, k, parse) + wx + wl;
        WithStamp(init, k, parse) + wl + wx;
        { WithStampAppend(init, [last], k, parse); SplitLast(s); }
        WithStamp(s, k, parse) + wx;
      }
    } else {
      assert Insert(s, x, parse) == s + [x];
      WithStampAppend(s, [x], k, parse);
    }
  }

  /** Stability: the posts sharing any one parsed date, an invalid date
      included, keep their listing order. */
  lemma {:induction false} SortStable(s: seq<Post>, k: Option<int>, parse: DateParser)
    ensures WithStamp(SortByDate(s, parse), k, parse) == WithStamp(s, k, parse)
  {
    if s != [] {
      var init, last := s[..|s| - 1], s[|s| - 1];
      SortStable(init, k, parse);
      InsertStable(SortByDate(init, parse), last, k, parse);
      WithStampAppend(init, [last], k, parse);
      SplitLast(s);
    }
  }

  // ---------------------------------------------------------------------------
  // Agreement with any stable sort

  lemma {:induction false} WithStampMembers(s: seq<Post>, k: Option<int>, parse: DateParser, x: Post)
    ensures x in WithStamp(s, k, parse) <==> x in s && Stamp(x, parse) == k
  {
    if s != [] {
      WithStampMembers(s[..|s| - 1], k, parse, x);
      SplitLast(s);
    }
  }

  /** The last post of a dated newest-first sequence is among the oldest. */
  lemma LastIsOldest(t: seq<Post>, parse: DateParser, y: Post)
    requires |t| > 0 && AllDated(t, parse) && NewestFirst(t, parse)
    requires y in t
    ensures Stamp(y, parse).value >= Stamp(t[|t| - 1], parse).value
  {
    var i :| 0 <= i < |t| && t[i] == y;
    if i < |t| - 1 {
      assert !Later(Stamp(t[|t| - 1], parse), Stamp(t[i], parse));
    }
  }

  /** `t` and `u` list the posts of every date in the same order. */
  ghost predicate SameWithinDates(t: seq<Post>, u: seq<Post>, parse: DateParser) {
    forall k :: WithStamp(t, k, parse) == WithStamp(u, k, parse)
  }

  /** Two dated newest-first sequences that agree within every date end with
      the same post. */
  lemma SameLast(t': seq<Post>, a: Post, u': seq<Post>, b: Post, parse: DateParser)
    requires AllDated(t' + [a], parse) && AllDated(u' + [b], parse)
    requires NewestFirst(t' + [a], parse) && NewestFirst(u' + [b], parse)
    requires SameWithinDates(t' + [a], u' + [b], parse)
    ensures a == b
  {
    var t, u := t' + [a], u' + [b];
    var ka, kb := Stamp(a, parse), Stamp(b, parse);
    // both ends carry the oldest date
    WithStampMembers(t, ka, parse, a);
    WithStampMembers(u, ka, parse, a);
    LastIsOldest(u, parse, a);
    WithStampMembers(u, kb, parse, b);
    WithStampMembers(t, kb, parse, b);
    LastIsOldest(t, parse, b);
    assert ka == kb;
    WithStampAppend(t', [a], ka, parse);
    WithStampAppend(u', [b], ka, parse);
    WithStampSingle(a, ka, parse);
    WithStampSingle(b, ka, parse);
    var x, y := WithStamp(t', ka, parse) + [a], WithStamp(u', ka, parse) + [b];
    assert x == WithStamp(t, ka, parse) == WithStamp(u, ka, parse) == y;
    assert x[|x| - 1] == a && y[|y| - 1] == b;
  }

  /** Dropping a common last post keeps the agreement within every date. */
  lemma DropLast(t': seq<Post>, u': seq<Post>, a: Post, parse: DateParser)
    requires SameWithinDates(t' + [a], u' + [a], parse)
    ensures SameWithinDates(t', u', parse)
  {
    forall k
      ensures WithStamp(t', k, parse) == WithStamp(u', k, parse)
    {
      assert WithStamp(t' + [a], k, parse) == WithStamp(u' + [a], k, parse);
      WithStampAppend(t', [a], k, parse);
      WithStampAppend(u', [a], k, parse);
      WithStampSingle(a, k, parse);
      var wt, wu := WithStamp(t', k, parse), WithStamp(u', k, parse);
      if Stamp(a, parse) == k {
        assert wt == (wt + [a])[..|wt|];
        assert wu == (wu + [a])[..|wu|];
      } else {
        assert wt + [] == wt && wu + [] == wu;
      }
    }
  }

  /** Putting `x` at `j`, before the last element, is putting it at `j` in
      the front and appending the last element. */
  lemma PlaceBeforeLast<T>(s: seq<T>, x: T, j: nat)
    requires j < |s|
    ensures s[..j] + [x] + s[j..] == s[..|s| - 1][..j] + [x] + s[..|s| - 1][j..] + [s[|s| - 1]]
  {
    assert s[..j] == s[..|s| - 1][..j];
    assert s[j..] == s[..|s| - 1][j..] + [s[|s| - 1]];
  }

  /** A non-empty sequence is its front followed by its last element. */
  lemma SplitLast<T>(t: seq<T>)
    requires |t| > 0
    ensures t == t[..|t| - 1] + [t[|t| - 1]]
  {
  }

  /** A prefix of a dated newest-first sequence is one too. */
  lemma PrefixOrdered(t: seq<Post>, n: nat, parse: DateParser)
    requires n <= |t|
    ensures AllDated(t, parse) ==> AllDated(t[..n], parse)
    ensures NewestFirst(t, parse) ==> NewestFirst(t[..n], parse)
  {
  }

  /** Two dated newest-first arrangements of the same length that agree on the
      order within every date are the same sequence. */
  lemma {:induction false} StableArrangementUnique(t: seq<Post>, u: seq<Post>, parse: DateParser)
    requires |t| == |u|
    requires AllDated(t, parse) && AllDated(u, parse)
    requires NewestFirst(t, parse) && NewestFirst(u, parse)
    requires SameWithinDates(t, u, parse)
    ensures t == u
  {
    if t != [] {
      var n := |t|;
      var t', u' := t[..n - 1], u[..n - 1];
      SplitLast(t);
      SplitLast(u);
      SameLast(t', t[n - 1], u', u[n - 1], parse);
      DropLast(t', u', t[n - 1], parse);
      PrefixOrdered(t, n - 1, parse);
      PrefixOrdered(u, n - 1, parse);
      StableArrangementUnique(t', u', parse);
    }
  }

  /** When every date is valid, any stable sort with this comparator returns
      exactly what the model's insertion sort does: the result is the only
      newest-first permutation that keeps equal dates in listing order. */
  lemma StableSortIsSortByDate(s: seq<Post>, t: seq<Post>, parse: DateParser)
    requires AllDated(s, parse)
    requires multiset(t) == multiset(s)
    requires NewestFirst(t, parse)
    requires forall k :: WithStamp(t, k, parse) == WithStamp(s, k, parse)
    ensures t == SortByDate(s, parse)
  {
    var u := SortByDate(s, parse);
    SortPermutes(s, parse);
    SortNewestFirst(s, parse);
    forall k
      ensures WithStamp(t, k, parse) == WithStamp(u, k, parse)
    {
      SortStable(s, k, parse);
    }
    AllDatedPermutation(s, t, parse);
    AllDatedPermutation(s, u, parse);
    assert |t| == |u| by {
      assert |t| == |multiset(t)| == |multiset(u)| == |u|;
    }
    assert SameWithinDates(t, u, parse);
    StableArrangementUnique(t, u, parse);
  }

  // ---------------------------------------------------------------------------
  // The imperative indexer

  /** `x` lands right after the last element the comparator does not rank
      after it, past a run of elements that it does. */
  lemma {:induction false} InsertLands(sorted: seq<Post>, x: Post, j: nat, parse: DateParser)
    requires j <= |sorted|
    requires forall m :: j <= m < |sorted| ==> CompareByDate(sorted[m], x, parse) > 0
    requires j == 0 || CompareByDate(sorted[j - 1], x, parse) <= 0
    ensures Insert(sorted, x, parse) == sorted[..j] + [x] + sorted[j..]
    decreases |sorted|
  {
    if j == |sorted| {
      assert sorted[..j] == sorted && sorted[j..] == [];
    } else {
      var init, last := sorted[..|sorted| - 1], sorted[|sorted| - 1];
      assert CompareByDate(last, x, parse) > 0;
      assert j == 0 || init[j - 1] == sorted[j - 1];
      InsertLands(init, x, j, parse);
      PlaceBeforeLast(sorted, x, j);
    }
  }

  /** A sequence holding `sorted[..j]`, then `x`, then the rest of `sorted`
      shifted one place right. */
  lemma PlacedAt(b: seq<Post>, sorted: seq<Post>, x: Post, j: nat)
    requires j <= |sorted| && |b| == |sorted| + 1
    requires forall m :: 0 <= m < j ==> b[m] == sorted[m]
    requires b[j] == x
    requires forall m :: j < m < |b| ==> b[m] == sorted[m - 1]
    ensures b == sorted[..j] + [x] + sorted[j..]
  {
    var placed := sorted[..j] + [x] + sorted[j..];
    forall m | 0 <= m < |b|
      ensures b[m] == placed[m]
    {
      if m > j {
        assert placed[m] == sorted[j..][m - j - 1];
      }
    }
  }

  /** One step of the in-place sort: `a[i]` moves left past every element of
      the sorted prefix `a[..i]` that the comparator ranks after it. */
  method InsertAt(a: array<Post>, i: nat, parse: DateParser)
    requires i < a.Length
    modifies a
    ensures a[..i + 1] == Insert(old(a[..i]), old(a[i]), parse)
    ensures forall m :: i < m < a.Length ==> a[m] == old(a[m])
  {
    ghost var sorted := a[..i];
    var x := a[i];
    var j := i;
    while j > 0 && CompareByDate(a[j - 1], x, parse) > 0
      invariant 0 <= j <= i
      invariant forall m :: 0 <= m < j ==> a[m] == sorted[m]
      invariant forall m :: j < m <= i ==> a[m] == sorted[m - 1]
      invariant forall m :: i < m < a.Length ==> a[m] == old(a[m])
      invariant forall m :: j <= m < i ==> CompareByDate(sorted[m], x, parse) > 0
    {
      a[j] := a[j - 1];
      j := j - 1;
    }
    a[j] := x;
    InsertLands(sorted, x, j, parse);
    PlacedAt(a[..i + 1], sorted, x, j);
  }

  /** The in-place stable sort: insertion sort with the date comparator. */
  method SortInPlace(a: array<Post>, parse: DateParser)
    modifies a
    ensures a[..] == SortByDate(old(a[..]), parse)
  {
    ghost var input := a[..];
    var i := 0;
    while i < a.Length
      invariant 0 <= i <= a.Length
      invariant a[..i] == SortByDate(input[..i], parse)
      invariant a[i..] == input[i..]
    {
      InsertAt(a, i, parse);
      assert input[..i + 1][..i] == input[..i];
      assert a[i + 1..] == input[i + 1..];
      i := i + 1;
    }
    assert input[..a.Length] == input;
  }

  /** What `fetchPosts` promises about its result: every directory entry's
      record exactly once, newest first when every date is valid, and the
      listing order kept among posts of the same date. */
  lemma IndexOrder(listing: seq<Entry>, parse: DateParser)
    ensures |Index(listing, parse)| == |listing|
    ensures multiset(Index(listing, parse)) == multiset(Records(listing))
    ensures SameWithinDates(Index(listing, parse), Records(listing), parse)
    ensures AllDated(Records(listing), parse) ==> NewestFirst(Index(listing, parse), parse)
  {
    var records := Records(listing);
    SortPermutes(records, parse);
    forall k
      ensures WithStamp(Index(listing, parse), k, parse) == WithStamp(records, k, parse)
    {
      SortStable(records, k, parse);
    }
    if AllDated(records, parse) {
      SortNewestFirst(records, parse);
    }
  }

  /** `fetchPosts`: one record per directory entry, then the in-place sort. */
  method FetchPosts(listing: seq<Entry>, parse: DateParser) returns (posts: seq<Post>)
    ensures posts == Index(listing, parse)
    ensures |posts| == |listing|
  {
    var recentPosts: seq<Post> := [];
    for k := 0 to |listing|
      invariant recentPosts == Records(listing[..k])
    {
      assert listing[..k + 1][..k] == listing[..k];
      recentPosts := recentPosts + [ToPost(listing[k])];
    }
    assert listing[..|listing|] == listing;
    var a := new Post[|recentPosts|](i requires 0 <= i < |recentPosts| => recentPosts[i]);
    assert a[..] == recentPosts;
    SortInPlace(a, parse);
    posts := a[..];
  }
}
