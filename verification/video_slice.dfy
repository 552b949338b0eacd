/** The client's video state and the reducers that change it in answer to
    the catalog requests: loading and error flags, the page counter, the
    accumulated list and the video on display. */
module VideoSlice {
  import opened Wrappers
  import opened VideoModel
  import opened CatalogQuery
  import CatalogStore

  /** Every field of the client's video state, as one value. */
  datatype Snapshot = Snapshot(
    videos: seq<Video>,
    featuredVideos: seq<Video>,
    trendingVideos: seq<Video>,
    currentVideo: Option<Video>,
    loading: bool,
    error: Option<string>,
    page: int,
    pages: int,
    hasMore: bool)

  const Initial: Snapshot := Snapshot([], [], [], None, false, None, 1, 1, true)

  /** The list after a page of the list endpoint arrives: the page replaces
      the list while the state is on page 1, and is appended after it
      otherwise. */
  function Accumulate(current: seq<Video>, page: int, incoming: seq<Video>): seq<Video> {
    if page == 1 then incoming else current + incoming
  }

  /** `videos.filter(video => video._id !== id)`. */
  function WithoutId(videos: seq<Video>, id: VideoId): (r: seq<Video>)
    ensures forall v :: v in r <==> v in videos && v.id != id
    ensures (forall j :: 0 <= j < |videos| ==> videos[j].id != id) ==> r == videos
  {
    if videos == [] then []
    else if videos[0].id == id then WithoutId(videos[1..], id)
    else [videos[0]] + WithoutId(videos[1..], id)
  }

  /** The filter works piecewise, so the videos it keeps stay in their order. */
  lemma {:induction false} WithoutIdAppend(a: seq<Video>, b: seq<Video>, id: VideoId)
    ensures WithoutId(a + b, id) == WithoutId(a, id) + WithoutId(b, id)
    decreases |a|
  {
    if a == [] {
      assert a + b == b;
    } else {
      assert (a + b)[1..] == a[1..] + b;
      WithoutIdAppend(a[1..], b, id);
    }
  }

  // ---------------------------------------------------------------------
  // Loading the list page by page
  // ---------------------------------------------------------------------

  /** The list a client holds once pages 1 to `k` of one query have arrived
      in order, each through `Accumulate`. */
  function LoadedPages(catalog: seq<Video>, q: ListQuery, callerIsAdmin: bool, k: nat): seq<Video> {
    if k == 0 then []
    else
      var r := ListVideos(catalog, q.(page := Number(k)), callerIsAdmin);
      Accumulate(LoadedPages(catalog, q, callerIsAdmin, k - 1), k, if r.Ok? then r.value.videos else [])
  }

  /** The first `k` pages' worth of a newest-first list, or all of it. */
  function FirstPages(sorted: seq<Video>, k: nat): (r: seq<Video>)
    ensures |r| == Min(PageSize * k, |sorted|)
  {
    sorted[..Min(PageSize * k, |sorted|)]
  }

  /** Page `k` continues the newest-first list where pages 1 to `k - 1`
      stopped; on page 1 it replaces whatever was there. */
  lemma AccumulatePage(before: seq<Video>, sorted: seq<Video>, r: ListPage)
    requires PageCounts(r, |sorted|) && PageWindow(r, sorted)
    requires before == FirstPages(sorted, r.page - 1)
    ensures Accumulate(before, r.page, r.videos) == FirstPages(sorted, r.page)
  {
    var skip := PageSize * (r.page - 1);
    var n := |sorted|;
    if skip < n {
      assert |before| == skip;
      var lhs := Accumulate(before, r.page, r.videos);
      assert lhs == before + r.videos;
      assert |lhs| == Min(PageSize * r.page, n);
      forall i | 0 <= i < |lhs| ensures lhs[i] == sorted[i] {
        if i >= skip {
          assert lhs[i] == r.videos[i - skip];
        }
      }
    } else {
      assert |r.videos| == 0;
      assert before == FirstPages(sorted, r.page);
    }
  }

  /** The list loaded through page `k` is the list loaded through page
      `k - 1` with page `k` accumulated onto it. */
  lemma LoadedPagesStep(catalog: seq<Video>, q: ListQuery, callerIsAdmin: bool, k: nat)
    requires k > 0
    ensures var r := ListVideos(catalog, q.(page := Number(k)), callerIsAdmin);
      r.Ok? && LoadedPages(catalog, q, callerIsAdmin, k) == Accumulate(LoadedPages(catalog, q, callerIsAdmin, k - 1), k, r.value.videos)
  {
    QueryPage(catalog, q, callerIsAdmin, k);
  }

  /** Loading pages 1 to `k` of one query in order leaves the client with
      the first `PageSize * k` videos of the newest-first matches, or all
      of them: no video is skipped or shown twice. */
  lemma {:induction false} LoadedPagesArePrefix(catalog: seq<Video>, q: ListQuery, callerIsAdmin: bool, k: nat)
    ensures LoadedPages(catalog, q, callerIsAdmin, k) == FirstPages(NewestMatches(catalog, q, callerIsAdmin), k)
  {
    if k > 0 {
      LoadedPagesArePrefix(catalog, q, callerIsAdmin, k - 1);
      LoadedPagesStep(catalog, q, callerIsAdmin, k);
      QueryPage(catalog, q, callerIsAdmin, k);
      var r := ListVideos(catalog, q.(page := Number(k)), callerIsAdmin).value;
      AccumulatePage(LoadedPages(catalog, q, callerIsAdmin, k - 1), NewestMatches(catalog, q, callerIsAdmin), r);
    }
  }

  /** `hasMore`, computed from the page just loaded and the page count it
      reported, says exactly whether the next page holds any video. */
  lemma HasMoreIffNextPageNonEmpty(catalog: seq<Video>, q: ListQuery, callerIsAdmin: bool, p: nat)
    requires p >= 1
    ensures var r := ListVideos(catalog, q.(page := Number(p)), callerIsAdmin);
      var next := ListVideos(catalog, q.(page := Number(p + 1)), callerIsAdmin);
      r.Ok? && next.Ok? && (p < r.value.pages <==> |next.value.videos| > 0)
  {
    QueryPage(catalog, q, callerIsAdmin, p);
    QueryPage(catalog, q, callerIsAdmin, p + 1);
    NonEmptyPages(catalog, q, callerIsAdmin, p + 1);
  }

  // ---------------------------------------------------------------------
  // The state and its reducers
  // ---------------------------------------------------------------------

  class VideoState {
    var videos: seq<Video>
    var featuredVideos: seq<Video>
    var trendingVideos: seq<Video>
    var currentVideo: Option<Video>
    var loading: bool
    var error: Option<string>
    var page: int
    var pages: int
    var hasMore: bool

    function Current(): Snapshot
      reads this
    {
      Snapshot(videos, featuredVideos, trendingVideos, currentVideo, loading, error, page, pages, hasMore)
    }

    constructor ()
      ensures Current() == Initial
    {
      videos := [];
      featuredVideos := [];
      trendingVideos := [];
      currentVideo := None;
      loading := false;
      error := None;
      page := 1;
      pages := 1;
      hasMore := true;
    }

    /** `clearVideoError`. */
    method ClearVideoError()
      modifies this
      ensures Current() == old(Current()).(error := None)
    {
      error := None;
    }

    /** `clearCurrentVideo`. */
    method ClearCurrentVideo()
      modifies this
      ensures Current() == old(Current()).(currentVideo := None)
    {
      currentVideo := None;
    }

    /** `resetVideos`: an empty list back on page 1; the page count, the
        other lists, the flags and the error stay. */
    method ResetVideos()
      modifies this
      ensures Current() == old(Current()).(videos := [], page := 1, hasMore := true)
    {
      videos := [];
      page := 1;
      hasMore := true;
    }

    /** The pending case of `fetchVideos` and of `fetchVideoById`. */
    method Pending()
      modifies this
      ensures Current() == old(Current()).(loading := true, error := None)
    {
      loading := true;
      error := None;
    }

    /** The rejected case of `fetchVideos` and of `fetchVideoById`. */
    method Rejected(message: string)
      modifies this
      ensures Current() == old(Current()).(loading := false, error := Some(message))
    {
      loading := false;
      error := Some(message);
    }

    /** The fulfilled case of `fetchVideos`: replace or append, record the
        page count, `hasMore` from the page the state was on, then move to
        the next page. */
    method FetchVideosFulfilled(payload: ListPage)
      modifies this
      ensures Current() == old(Current()).(
        loading := false,
        videos := Accumulate(old(videos), old(page), payload.videos),
        pages := payload.pages,
        hasMore := old(page) < payload.pages,
        page := old(page) + 1)
      ensures old(page) == 1 ==> videos == payload.videos
      ensures old(page) != 1 ==> videos[..|old(videos)|] == old(videos) && videos[|old(videos)|..] == payload.videos
    {
      loading := false;
      videos := if page == 1 then payload.videos else videos + payload.videos;
      pages := payload.pages;
      hasMore := page < payload.pages;
      page := page + 1;
    }

    /** The fulfilled case of `fetchFeaturedVideos`. */
    method FeaturedFulfilled(payload: seq<Video>)
      modifies this
      ensures Current() == old(Current()).(featuredVideos := payload)
    {
      featuredVideos := payload;
    }

    /** The fulfilled case of `fetchTrendingVideos`. */
    method TrendingFulfilled(payload: seq<Video>)
      modifies this
      ensures Current() == old(Current()).(trendingVideos := payload)
    {
      trendingVideos := payload;
    }

    /** The fulfilled case of `fetchVideoById`. */
    method VideoByIdFulfilled(payload: Video)
      modifies this
      ensures Current() == old(Current()).(loading := false, currentVideo := Some(payload))
    {
      loading := false;
      currentVideo := Some(payload);
    }

    /** The fulfilled case of `createVideo`: the new video goes first. */
    method CreateFulfilled(payload: Video)
      modifies this
      ensures Current() == old(Current()).(videos := [payload] + old(videos))
      ensures |videos| == |old(videos)| + 1 && videos[0] == payload && videos[1..] == old(videos)
    {
      videos := [payload] + videos;
    }

    /** The fulfilled case of `updateVideo`: the first entry with the
        payload's id is replaced, and the video on display when it has that
        id. */
    method UpdateFulfilled(payload: Video)
      modifies this
      ensures var k := CatalogStore.IndexOf(old(videos), payload.id);
        Current() == old(Current()).(
          videos := if k.Some? then old(videos)[k.value := payload] else old(videos),
          currentVideo := if old(currentVideo).Some? && old(currentVideo).value.id == payload.id
                          then Some(payload) else old(currentVideo))
      ensures |videos| == |old(videos)|
      ensures forall j :: 0 <= j < |videos| && videos[j] != old(videos)[j] ==>
        videos[j] == payload && old(videos)[j].id == payload.id
        && forall i :: 0 <= i < j ==> old(videos)[i].id != payload.id
    {
      var index := CatalogStore.IndexOf(videos, payload.id);
      if index.Some? {
        videos := videos[index.value := payload];
      }
      if currentVideo.Some? && currentVideo.value.id == payload.id {
        currentVideo := Some(payload);
      }
    }

    /** The fulfilled case of `deleteVideo`: every entry with that id leaves
        the list, and the video on display is cleared when it has that id. */
    method DeleteFulfilled(id: VideoId)
      modifies this
      ensures Current() == old(Current()).(
        videos := WithoutId(old(videos), id),
        currentVideo := if old(currentVideo).Some? && old(currentVideo).value.id == id
                        then None else old(currentVideo))
      ensures forall v :: v in videos ==> v.id != id
    {
      videos := WithoutId(videos, id);
      if currentVideo.Some? && currentVideo.value.id == id {
        currentVideo := None;
      }
    }
  }
}
