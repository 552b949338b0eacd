/** The catalog query engine: the filter the list endpoint builds from its
    query string, the newest-first ordering, skip/limit pagination with its
    counts, and the three fixed views (featured, by genre, trending). */
module CatalogQuery {
  import opened Wrappers
  import opened VideoModel

  // ---------------------------------------------------------------------
  // Case-insensitive substring match (the keyword, matched with option 'i')
  // ---------------------------------------------------------------------

  function LowerChar(c: char): char {
    if 'A' <= c <= 'Z' then (c as int - 'A' as int + 'a' as int) as char else c
  }

  /** ASCII lower-casing: each capital letter becomes its small letter, every
      other character stays, and no capital letter is left. */
  function Lower(s: string): (r: string)
    ensures |r| == |s|
    ensures forall i :: 0 <= i < |s| && 'A' <= s[i] <= 'Z' ==>
      r[i] as int == s[i] as int + ('a' as int - 'A' as int)
    ensures forall i :: 0 <= i < |s| && !('A' <= s[i] <= 'Z') ==> r[i] == s[i]
    ensures forall i :: 0 <= i < |r| ==> !('A' <= r[i] <= 'Z')
  {
    seq(|s|, i requires 0 <= i < |s| => LowerChar(s[i]))
  }

  /** `needle` occurs somewhere in `hay`. */
  predicate Contains(hay: string, needle: string)
    decreases |hay|
  {
    needle <= hay || (hay != [] && Contains(hay[1..], needle))
  }

  /** An occurrence at a given offset is an occurrence. */
  lemma {:induction false} ContainsAt(hay: string, needle: string, i: nat)
    requires i + |needle| <= |hay| && hay[i..i + |needle|] == needle
    ensures Contains(hay, needle)
    decreases i
  {
    if i == 0 {
      assert needle <= hay;
    } else {
      assert hay[1..][i - 1..i - 1 + |needle|] == needle;
      ContainsAt(hay[1..], needle, i - 1);
    }
  }

  /** Every occurrence sits at some offset. */
  lemma {:induction false} ContainsOffset(hay: string, needle: string) returns (i: nat)
    requires Contains(hay, needle)
    ensures i + |needle| <= |hay| && hay[i..i + |needle|] == needle
    decreases |hay|
  {
    if needle <= hay {
      i := 0;
    } else {
      var j := ContainsOffset(hay[1..], needle);
      i := j + 1;
      assert hay[i..i + |needle|] == hay[1..][j..j + |needle|];
    }
  }

  predicate ContainsIgnoreCase(text: string, keyword: string) {
    Contains(Lower(text), Lower(keyword))
  }

  /** A keyword that occurs verbatim also occurs when case is ignored, and
      case in the keyword makes no difference. */
  lemma VerbatimMatchIgnoresCase(text: string, keyword: string)
    requires Contains(text, keyword)
    ensures ContainsIgnoreCase(text, keyword)
    ensures ContainsIgnoreCase(text, Lower(keyword))
  {
    var i := ContainsOffset(text, keyword);
    assert Lower(text)[i..i + |keyword|] == Lower(keyword);
    ContainsAt(Lower(text), Lower(keyword), i);
    assert Lower(Lower(keyword)) == Lower(keyword);
  }

  // ---------------------------------------------------------------------
  // The filter document and its meaning
  // ---------------------------------------------------------------------

  /** A find filter as the controllers build it: each part is optional and
      the parts are ANDed. `keyword` matches title OR description. */
  datatype Criteria = Criteria(
    keyword: Option<string>,
    genre: Option<string>,
    published: Option<bool>,
    featured: Option<bool>)

  predicate Matches(v: Video, c: Criteria) {
    && (c.keyword.Some? ==>
          ContainsIgnoreCase(v.title, c.keyword.value) || ContainsIgnoreCase(v.description, c.keyword.value))
    && (c.genre.Some? ==> c.genre.value in v.genre)
    && (c.published.Some? ==> v.isPublished == c.published.value)
    && (c.featured.Some? ==> v.isFeatured == c.featured.value)
  }

  /** The documents the filter matches, in store order. */
  function Select(catalog: seq<Video>, c: Criteria): (r: seq<Video>)
    ensures forall v :: multiset(r)[v] == if Matches(v, c) then multiset(catalog)[v] else 0
    ensures forall v :: v in r ==> v in catalog && Matches(v, c)
    ensures |r| <= |catalog|
  {
    if catalog == [] then []
    else
      var rest := Select(catalog[1..], c);
      assert catalog == [catalog[0]] + catalog[1..];
      if Matches(catalog[0], c) then [catalog[0]] + rest else rest
  }

  // ---------------------------------------------------------------------
  // Descending sort and skip/limit
  // ---------------------------------------------------------------------

  datatype SortKey = ByCreatedAt | ByViews

  function Key(k: SortKey, v: Video): int {
    match k
    case ByCreatedAt => v.createdAt
    case ByViews => v.views
  }

  predicate SortedDesc(s: seq<Video>, k: SortKey) {
    forall i, j :: 0 <= i < j < |s| ==> Key(k, s[i]) >= Key(k, s[j])
  }

  function Insert(v: Video, s: seq<Video>, k: SortKey): (r: seq<Video>)
    requires SortedDesc(s, k)
    ensures SortedDesc(r, k)
    ensures multiset(r) == multiset(s) + multiset{v}
    ensures |r| == |s| + 1
  {
    if s == [] || Key(k, v) >= Key(k, s[0]) then [v] + s
    else
      var rest := Insert(v, s[1..], k);
      assert s == [s[0]] + s[1..];
      HeadBoundsRest(s, v, rest, k);
      ConsSorted(s[0], rest, k);
      [s[0]] + rest
  }

  /** Every video of a rearrangement of the tail of a descending sequence,
      plus one that ranks below its head, ranks at most the head. */
  lemma HeadBoundsRest(s: seq<Video>, v: Video, rest: seq<Video>, k: SortKey)
    requires SortedDesc(s, k) && s != [] && Key(k, v) < Key(k, s[0])
    requires multiset(rest) == multiset(s[1..]) + multiset{v}
    ensures forall x :: x in rest ==> Key(k, x) <= Key(k, s[0])
  {
    forall x | x in rest ensures Key(k, x) <= Key(k, s[0]) {
      assert x in multiset(rest);
      if x != v {
        assert x in multiset(s[1..]);
        assert x in s[1..];
      }
    }
  }

  /** A head that ranks at least every video of a descending sequence
      keeps it descending. */
  lemma ConsSorted(h: Video, rest: seq<Video>, k: SortKey)
    requires SortedDesc(rest, k)
    requires forall x :: x in rest ==> Key(k, x) <= Key(k, h)
    ensures SortedDesc([h] + rest, k)
  {
    var r := [h] + rest;
    forall i, j | 0 <= i < j < |r| ensures Key(k, r[i]) >= Key(k, r[j]) {
      assert r[j] == rest[j - 1];
      if i > 0 {
        assert r[i] == rest[i - 1];
      } else {
        assert r[j] in rest;
      }
    }
  }

  /** The store's sort `{ key: -1 }`: descending on the key. Ties stay in
      store order. */
  function SortDesc(s: seq<Video>, k: SortKey): (r: seq<Video>)
    ensures SortedDesc(r, k)
    ensures multiset(r) == multiset(s)
    ensures |r| == |s|
  {
    if s == [] then []
    else
      assert s == [s[0]] + s[1..];
      Insert(s[0], SortDesc(s[1..], k), k)
  }

  function Min(a: nat, b: nat): nat {
    if a <= b then a else b
  }

  /** `.skip(skip).limit(limit)` on an ordered result. */
  function Window(s: seq<Video>, skip: nat, limit: nat): (r: seq<Video>)
    ensures |r| == if skip >= |s| then 0 else Min(limit, |s| - skip)
    ensures forall i :: 0 <= i < |r| ==> r[i] == s[skip + i]
  {
    if skip >= |s| then [] else s[skip..skip + Min(limit, |s| - skip)]
  }

  lemma WindowOfSorted(s: seq<Video>, skip: nat, limit: nat, k: SortKey)
    ensures SortedDesc(s, k) ==> SortedDesc(Window(s, skip, limit), k)
    ensures forall v :: v in Window(s, skip, limit) ==> v in s
  {
    var r := Window(s, skip, limit);
    forall v | v in r ensures v in s {
      var i :| 0 <= i < |r| && r[i] == v;
      assert s[skip + i] == v;
    }
    if !SortedDesc(s, k) { return; }
    forall i, j | 0 <= i < j < |r| ensures Key(k, r[i]) >= Key(k, r[j]) {
      assert r[i] == s[skip + i] && r[j] == s[skip + j];
    }
  }

  // ---------------------------------------------------------------------
  // The list endpoint
  // ---------------------------------------------------------------------

  const PageSize: nat := 12

  /** What `Number(req.query.page)` yields: no parameter, a string that is
      not a number, or a number. */
  datatype PageParam = Absent | NotANumber | Number(n: int)

  /** `Number(page) || 1`: a missing, non-numeric or zero page reads as 1. */
  function RequestedPage(p: PageParam): (page: int)
    ensures page != 0
    ensures p.Number? && p.n != 0 ==> page == p.n
    ensures !(p.Number? && p.n != 0) ==> page == 1
  {
    if p.Number? && p.n != 0 then p.n else 1
  }

  datatype ListQuery = ListQuery(keyword: string, genre: string, page: PageParam)

  datatype ListPage = ListPage(videos: seq<Video>, page: int, pages: nat, total: nat)

  /** The filter of the list endpoint. An empty keyword or genre is falsy in
      the source and adds no condition; non-admin callers only see published
      videos. */
  function ListFilter(q: ListQuery, callerIsAdmin: bool): (c: Criteria)
    ensures c.featured.None?
    ensures c.keyword.Some? <==> q.keyword != ""
    ensures c.keyword.Some? ==> c.keyword.value == q.keyword
    ensures c.genre.Some? <==> q.genre != ""
    ensures c.genre.Some? ==> c.genre.value == q.genre
    ensures (c.published == Some(true)) <==> !callerIsAdmin
    ensures c.published.None? <==> callerIsAdmin
  {
    Criteria(
      if q.keyword != "" then Some(q.keyword) else None,
      if q.genre != "" then Some(q.genre) else None,
      if callerIsAdmin then None else Some(true),
      None)
  }

  /** `Math.ceil(total / size)`. */
  function CeilDiv(total: nat, size: nat): (r: nat)
    requires size > 0
    ensures r * size >= total
    ensures r == 0 || (r - 1) * size < total
  {
    (total + size - 1) / size
  }

  /** The matches of the list filter, newest first. */
  function NewestMatches(catalog: seq<Video>, q: ListQuery, callerIsAdmin: bool): seq<Video> {
    SortDesc(Select(catalog, ListFilter(q, callerIsAdmin)), ByCreatedAt)
  }

  /** Page `page` (from 1) of the newest-first matches:
      `skip(PageSize * (page - 1))` and `limit(PageSize)`. */
  function PageOf(sorted: seq<Video>, page: nat): (videos: seq<Video>)
    requires page >= 1
    ensures |videos| <= PageSize
    ensures |videos| == if PageSize * (page - 1) >= |sorted| then 0 else Min(PageSize, |sorted| - PageSize * (page - 1))
    ensures forall i :: 0 <= i < |videos| ==>
      PageSize * (page - 1) + i < |sorted| && videos[i] == sorted[PageSize * (page - 1) + i]
    ensures forall v :: v in videos ==> v in sorted
    ensures SortedDesc(sorted, ByCreatedAt) ==> SortedDesc(videos, ByCreatedAt)
  {
    WindowOfSorted(sorted, PageSize * (page - 1), PageSize, ByCreatedAt);
    Window(sorted, PageSize * (page - 1), PageSize)
  }

  /** What every video on a page of the list endpoint satisfies. */
  predicate ListedFor(v: Video, q: ListQuery, callerIsAdmin: bool) {
    && (!callerIsAdmin ==> v.isPublished)
    && (q.keyword != "" ==> ContainsIgnoreCase(v.title, q.keyword) || ContainsIgnoreCase(v.description, q.keyword))
    && (q.genre != "" ==> q.genre in v.genre)
  }

  /** The counts of a page: its number, how many videos it holds (at most
      PageSize), the number of all matches and `ceil(total / PageSize)`. */
  predicate PageCounts(r: ListPage, total: nat) {
    && r.page >= 1
    && |r.videos| == (if PageSize * (r.page - 1) >= total then 0 else Min(PageSize, total - PageSize * (r.page - 1)))
    && |r.videos| <= PageSize
    && r.total == total
    && r.pages * PageSize >= total
    && (r.pages == 0 || (r.pages - 1) * PageSize < total)
  }

  /** The videos of a page are the stretch of `sorted` that
      `skip(PageSize * (page - 1))` selects. */
  predicate PageWindow(r: ListPage, sorted: seq<Video>) {
    && r.page >= 1
    && forall i :: 0 <= i < |r.videos| ==>
         PageSize * (r.page - 1) + i < |sorted| && r.videos[i] == sorted[PageSize * (r.page - 1) + i]
  }

  /** What the list endpoint promises of a page it returns for the query:
      the counts, only videos of the catalog that pass the filter, newest
      first, and exactly the window of the newest-first matches. */
  predicate IsListPage(r: ListPage, catalog: seq<Video>, q: ListQuery, callerIsAdmin: bool) {
    var sorted := NewestMatches(catalog, q, callerIsAdmin);
    && r.page == RequestedPage(q.page)
    && PageCounts(r, |sorted|)
    && (forall v :: v in r.videos ==> v in catalog && ListedFor(v, q, callerIsAdmin))
    && SortedDesc(r.videos, ByCreatedAt)
    && PageWindow(r, sorted)
  }

  /** `getVideos`. The page is `Number(page) || 1`; a negative page gives the
      store a negative skip, which it refuses. */
  function ListVideos(catalog: seq<Video>, q: ListQuery, callerIsAdmin: bool): (r: Result<ListPage>)
    ensures r.Fail? <==> RequestedPage(q.page) < 0
    ensures r.Fail? ==> r.failure.QueryError?
    ensures r.Ok? ==> IsListPage(r.value, catalog, q, callerIsAdmin)
  {
    var page := RequestedPage(q.page);
    if page < 0 then
      Fail(QueryError("skip must be non-negative"))
    else
      var matches := Select(catalog, ListFilter(q, callerIsAdmin));
      var sorted := SortDesc(matches, ByCreatedAt);
      var r := ListPage(PageOf(sorted, page), page, CeilDiv(|matches|, PageSize), |matches|);
      ListPageCorrect(catalog, q, callerIsAdmin, sorted, r);
      Ok(r)
  }

  lemma ListPageCorrect(catalog: seq<Video>, q: ListQuery, callerIsAdmin: bool, sorted: seq<Video>, r: ListPage)
    requires RequestedPage(q.page) >= 1
    requires sorted == NewestMatches(catalog, q, callerIsAdmin)
    requires r == ListPage(PageOf(sorted, RequestedPage(q.page)), RequestedPage(q.page), CeilDiv(|sorted|, PageSize), |sorted|)
    ensures IsListPage(r, catalog, q, callerIsAdmin)
  {
    PageOfCorrect(sorted, RequestedPage(q.page), r);
    SortedMatches(catalog, ListFilter(q, callerIsAdmin), ByCreatedAt);
    forall v | v in r.videos ensures v in catalog && ListedFor(v, q, callerIsAdmin) {
      FilterListed(v, q, callerIsAdmin);
    }
  }

  /** The counts and the window of a page cut from the sorted matches. */
  lemma PageOfCorrect(sorted: seq<Video>, page: nat, r: ListPage)
    requires page >= 1
    requires r == ListPage(PageOf(sorted, page), page, CeilDiv(|sorted|, PageSize), |sorted|)
    ensures PageCounts(r, |sorted|) && PageWindow(r, sorted)
  {
  }

  /** A video the list filter matches is one the list endpoint may show. */
  lemma FilterListed(v: Video, q: ListQuery, callerIsAdmin: bool)
    requires Matches(v, ListFilter(q, callerIsAdmin))
    ensures ListedFor(v, q, callerIsAdmin)
  {
  }

  /** Without admin rights only published videos are listed; with a keyword
      each listed video has it in its title or description, ignoring case;
      with a genre each listed video carries it. */
  lemma ListedVideosPassFilter(catalog: seq<Video>, q: ListQuery, callerIsAdmin: bool, v: Video)
    requires ListVideos(catalog, q, callerIsAdmin).Ok?
    requires v in ListVideos(catalog, q, callerIsAdmin).value.videos
    ensures !callerIsAdmin ==> v.isPublished
    ensures q.keyword != "" ==> ContainsIgnoreCase(v.title, q.keyword) || ContainsIgnoreCase(v.description, q.keyword)
    ensures q.genre != "" ==> q.genre in v.genre
  {
  }

  /** Page `p` of a query: its counts and its window of the newest-first
      matches, which do not depend on the page asked for. */
  lemma QueryPage(catalog: seq<Video>, q: ListQuery, callerIsAdmin: bool, p: int)
    requires p >= 1
    ensures var r := ListVideos(catalog, q.(page := Number(p)), callerIsAdmin);
      var sorted := NewestMatches(catalog, q, callerIsAdmin);
      r.Ok? && r.value.page == p && PageCounts(r.value, |sorted|) && PageWindow(r.value, sorted)
  {
    var q' := q.(page := Number(p));
    assert ListFilter(q', callerIsAdmin) == ListFilter(q, callerIsAdmin);
    assert NewestMatches(catalog, q', callerIsAdmin) == NewestMatches(catalog, q, callerIsAdmin);
  }

  /** Every matching video is on exactly one page: the one its position in
      the newest-first order falls into. */
  lemma EveryMatchOnItsPage(catalog: seq<Video>, q: ListQuery, callerIsAdmin: bool, i: nat)
    requires i < |NewestMatches(catalog, q, callerIsAdmin)|
    ensures var r := ListVideos(catalog, q.(page := Number(i / PageSize + 1)), callerIsAdmin);
      r.Ok? && i % PageSize < |r.value.videos|
      && r.value.videos[i % PageSize] == NewestMatches(catalog, q, callerIsAdmin)[i]
  {
    var p := i / PageSize + 1;
    QueryPage(catalog, q, callerIsAdmin, p);
    PositionOnPage(ListVideos(catalog, q.(page := Number(p)), callerIsAdmin).value, NewestMatches(catalog, q, callerIsAdmin), i);
  }

  /** Position `i` of `sorted` is entry `i % PageSize` of page
      `i / PageSize + 1`. */
  lemma PositionOnPage(r: ListPage, sorted: seq<Video>, i: nat)
    requires i < |sorted| && r.page == i / PageSize + 1
    requires PageCounts(r, |sorted|) && PageWindow(r, sorted)
    ensures i % PageSize < |r.videos| && r.videos[i % PageSize] == sorted[i]
  {
    assert PageSize * (r.page - 1) + i % PageSize == i;
  }

  /** The pages numbered 1 to `pages` are exactly the non-empty ones. */
  lemma {:induction false} NonEmptyPages(catalog: seq<Video>, q: ListQuery, callerIsAdmin: bool, p: int)
    requires p >= 1
    ensures var r := ListVideos(catalog, q.(page := Number(p)), callerIsAdmin);
      r.Ok? && (|r.value.videos| > 0 <==> p <= r.value.pages)
  {
    QueryPage(catalog, q, callerIsAdmin, p);
    var r := ListVideos(catalog, q.(page := Number(p)), callerIsAdmin);
    var total, pages := r.value.total, r.value.pages;
    if p <= pages {
      MulMonotone(p - 1, pages - 1, PageSize);
      assert PageSize * (p - 1) < total;
    } else {
      MulMonotone(pages, p - 1, PageSize);
      assert PageSize * (p - 1) >= total;
    }
  }

  lemma MulMonotone(a: nat, b: nat, k: nat)
    requires a <= b
    ensures a * k <= b * k
  {
  }

  // ---------------------------------------------------------------------
  // The fixed views
  // ---------------------------------------------------------------------

  /** The first `n` of the matches ordered descending by the key. */
  function TopN(catalog: seq<Video>, c: Criteria, k: SortKey, n: nat): (r: seq<Video>)
    ensures |r| <= n
    ensures |r| == Min(n, |Select(catalog, c)|)
    ensures multiset(r) <= multiset(Select(catalog, c))
    ensures multiset(r) <= multiset(catalog)
    ensures forall v :: v in r ==> v in catalog && Matches(v, c)
    ensures SortedDesc(r, k)
    ensures forall v :: v in catalog && Matches(v, c) && v !in r ==>
              |r| == n && forall w :: w in r ==> Key(k, w) >= Key(k, v)
  {
    var sorted := SortDesc(Select(catalog, c), k);
    SortedMatches(catalog, c, k);
    WindowOfSorted(sorted, 0, n, k);
    PrefixDominates(sorted, n, k);
    PrefixSubMultiset(sorted, n);
    SelectSubMultiset(catalog, c);
    Window(sorted, 0, n)
  }

  /** The first `n` of a sequence take each element at most as often as
      the sequence holds it. */
  lemma PrefixSubMultiset(s: seq<Video>, n: nat)
    ensures multiset(Window(s, 0, n)) <= multiset(s)
  {
    var m := |Window(s, 0, n)|;
    assert Window(s, 0, n) == s[..m];
    assert s == s[..m] + s[m..];
  }

  /** The filter takes each document at most as often as the catalog
      holds it. */
  lemma SelectSubMultiset(catalog: seq<Video>, c: Criteria)
    ensures multiset(Select(catalog, c)) <= multiset(catalog)
  {
    var r := Select(catalog, c);
    forall v ensures multiset(r)[v] <= multiset(catalog)[v] {
    }
  }

  /** The sorted matches hold exactly the catalog's matching videos. */
  lemma SortedMatches(catalog: seq<Video>, c: Criteria, k: SortKey)
    ensures forall v :: v in SortDesc(Select(catalog, c), k) <==> v in catalog && Matches(v, c)
  {
    var sorted := SortDesc(Select(catalog, c), k);
    forall v ensures v in sorted <==> v in catalog && Matches(v, c) {
      assert v in sorted <==> v in multiset(sorted);
      assert v in catalog <==> v in multiset(catalog);
    }
  }

  /** A video of a descending sequence that its first `n` leave out ranks
      no higher than any of them, and then there are `n` of them. */
  lemma PrefixDominates(sorted: seq<Video>, n: nat, k: SortKey)
    requires SortedDesc(sorted, k)
    ensures var r := Window(sorted, 0, n);
      forall v :: v in sorted && v !in r ==> |r| == n && forall w :: w in r ==> Key(k, w) >= Key(k, v)
  {
    var r := Window(sorted, 0, n);
    forall v | v in sorted && v !in r
      ensures |r| == n && forall w :: w in r ==> Key(k, w) >= Key(k, v)
    {
      var j :| 0 <= j < |sorted| && sorted[j] == v;
      assert j >= |r|;
      forall w | w in r ensures Key(k, w) >= Key(k, v) {
        var i :| 0 <= i < |r| && r[i] == w;
        assert w == sorted[i];
      }
    }
  }

  /** The filters of the fixed views. */
  const FeaturedFilter: Criteria := Criteria(None, None, Some(true), Some(true))
  const PublishedFilter: Criteria := Criteria(None, None, Some(true), None)

  function GenreFilter(genre: string): Criteria {
    Criteria(None, Some(genre), Some(true), None)
  }

  /** `getFeaturedVideos`: featured and published, newest first, at most 6,
      each document at most once per catalog entry. */
  function FeaturedVideos(catalog: seq<Video>): (r: seq<Video>)
    ensures |r| <= 6
    ensures |r| == Min(6, |Select(catalog, FeaturedFilter)|)
    ensures multiset(r) <= multiset(catalog)
    ensures forall v :: v in r ==> v in catalog && v.isFeatured && v.isPublished
    ensures SortedDesc(r, ByCreatedAt)
    ensures forall v :: v in catalog && v.isFeatured && v.isPublished && v !in r ==>
              |r| == 6 && forall w :: w in r ==> w.createdAt >= v.createdAt
  {
    TopN(catalog, FeaturedFilter, ByCreatedAt, 6)
  }

  /** `getVideosByGenre`: published videos carrying the tag, newest first,
      at most 10, each document at most once per catalog entry. */
  function VideosByGenre(catalog: seq<Video>, genre: string): (r: seq<Video>)
    ensures |r| <= 10
    ensures |r| == Min(10, |Select(catalog, GenreFilter(genre))|)
    ensures multiset(r) <= multiset(catalog)
    ensures forall v :: v in r ==> v in catalog && genre in v.genre && v.isPublished
    ensures SortedDesc(r, ByCreatedAt)
    ensures forall v :: v in catalog && genre in v.genre && v.isPublished && v !in r ==>
              |r| == 10 && forall w :: w in r ==> w.createdAt >= v.createdAt
  {
    TopN(catalog, GenreFilter(genre), ByCreatedAt, 10)
  }

  /** `getTrendingVideos`: published videos, most viewed first, at most 10,
      each document at most once per catalog entry. */
  function TrendingVideos(catalog: seq<Video>): (r: seq<Video>)
    ensures |r| <= 10
    ensures |r| == Min(10, |Select(catalog, PublishedFilter)|)
    ensures multiset(r) <= multiset(catalog)
    ensures forall v :: v in r ==> v in catalog && v.isPublished
    ensures forall i, j :: 0 <= i < j < |r| ==> r[i].views >= r[j].views
    ensures forall v :: v in catalog && v.isPublished && v !in r ==>
              |r| == 10 && forall w :: w in r ==> w.views >= v.views
  {
    var c := PublishedFilter;
    assert forall v :: Matches(v, c) <==> v.isPublished;
    assert forall v :: Key(ByViews, v) == v.views;
    TopN(catalog, c, ByViews, 10)
  }
}
