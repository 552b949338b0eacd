/** The video collection and the handlers that change it: the view count
    bumped on fetch by id, and the admin-only create, update, delete and the
    publish and feature toggles. */
module CatalogStore {
  import opened Wrappers
  import opened VideoModel
  import opened CatalogQuery

  /** The identity the authentication middleware attaches to a request. */
  datatype Caller = Caller(userId: nat, isAdmin: bool)

  const VideoNotFound: Failure := AppError("Video not found", 404)

  predicate UniqueIds(catalog: seq<Video>) {
    forall i, j :: 0 <= i < j < |catalog| ==> catalog[i].id != catalog[j].id
  }

  /** `findById`: the position of the video with that id, if any. */
  function IndexOf(catalog: seq<Video>, id: VideoId): (r: Option<nat>)
    ensures r.Some? ==> r.value < |catalog| && catalog[r.value].id == id
    ensures r.Some? ==> forall j :: 0 <= j < r.value ==> catalog[j].id != id
    ensures r.None? <==> forall j :: 0 <= j < |catalog| ==> catalog[j].id != id
  {
    if catalog == [] then None
    else if catalog[0].id == id then Some(0)
    else match IndexOf(catalog[1..], id)
      case None => None
      case Some(k) => Some(k + 1)
  }

  /** Replacing a video by one with the same id moves no id. */
  lemma {:induction false} IndexOfAfterReplace(catalog: seq<Video>, i: nat, v: Video, id: VideoId)
    requires i < |catalog| && catalog[i].id == v.id
    ensures IndexOf(catalog[i := v], id) == IndexOf(catalog, id)
    decreases i
  {
    if i > 0 && catalog[0].id != id {
      assert catalog[i := v][1..] == catalog[1..][i - 1 := v];
      IndexOfAfterReplace(catalog[1..], i - 1, v, id);
    }
  }

  /** Ids are unique and below the next fresh one; every stored document
      satisfies the schema. */
  ghost predicate StoreInvariant(catalog: seq<Video>, nextId: nat) {
    && UniqueIds(catalog)
    && (forall k :: 0 <= k < |catalog| ==> catalog[k].id < nextId)
    && (forall k :: 0 <= k < |catalog| ==> WellFormed(catalog[k]))
  }

  /** Replacing a stored video by a well-formed one with the same id keeps
      the invariant. */
  lemma ReplaceKeepsInvariant(catalog: seq<Video>, nextId: nat, i: nat, v: Video)
    requires StoreInvariant(catalog, nextId) && i < |catalog|
    requires v.id == catalog[i].id && WellFormed(v)
    ensures StoreInvariant(catalog[i := v], nextId)
  {
    var after := catalog[i := v];
    forall j, k | 0 <= j < k < |after| ensures after[j].id != after[k].id {
      assert after[j].id == catalog[j].id && after[k].id == catalog[k].id;
    }
  }

  /** Appending a well-formed video under the next fresh id keeps the
      invariant; no stored video has that id. */
  lemma AppendKeepsInvariant(catalog: seq<Video>, nextId: nat, v: Video)
    requires StoreInvariant(catalog, nextId)
    requires v.id == nextId && WellFormed(v)
    ensures StoreInvariant(catalog + [v], nextId + 1)
    ensures IndexOf(catalog, nextId).None?
  {
    var after := catalog + [v];
    forall j, k | 0 <= j < k < |after| ensures after[j].id != after[k].id {
      assert after[j] == catalog[j];
    }
  }

  /** Removing the video at `i` from a collection with unique ids removes
      exactly the videos with its id and keeps the invariant. */
  lemma RemoveAtKeepsOthers(catalog: seq<Video>, nextId: nat, i: nat)
    requires StoreInvariant(catalog, nextId) && i < |catalog|
    ensures var rest := catalog[..i] + catalog[i + 1..];
      && StoreInvariant(rest, nextId)
      && (forall v :: v in rest <==> v in catalog && v.id != catalog[i].id)
  {
    var rest := catalog[..i] + catalog[i + 1..];
    assert forall j :: 0 <= j < |rest| ==> rest[j] == catalog[if j < i then j else j + 1];
    forall v | v in catalog && v.id != catalog[i].id
      ensures v in rest
    {
      var j :| 0 <= j < |catalog| && catalog[j] == v;
      if j < i {
        assert rest[j] == v;
      } else {
        assert rest[j - 1] == v;
      }
    }
  }

  /** The view count and the two flags take no part in the schema's
      checks. */
  lemma CountersKeepWellFormed(v: Video, views: int, isPublished: bool, isFeatured: bool)
    requires WellFormed(v)
    ensures WellFormed(v.(views := views, isPublished := isPublished, isFeatured := isFeatured))
  {
  }

  // ---------------------------------------------------------------------
  // Update by shallow merge (`Object.assign(video, req.body)`)
  // ---------------------------------------------------------------------

  /** The fields of a video an update body may carry; `None` leaves a field
      as it is. The model gives a body no `_id` or `createdAt`. */
  datatype VideoPatch = VideoPatch(
    title: Option<string>,
    description: Option<string>,
    thumbnailUrl: Option<string>,
    videoUrl: Option<string>,
    duration: Option<nat>,
    genre: Option<seq<string>>,
    rating: Option<real>,
    views: Option<int>,
    releaseYear: Option<int>,
    cast: Option<seq<string>>,
    director: Option<string>,
    isPublished: Option<bool>,
    isFeatured: Option<bool>)

  const EmptyPatch: VideoPatch :=
    VideoPatch(None, None, None, None, None, None, None, None, None, None, None, None, None)

  /** The merged document: every supplied field overwrites the stored one
      (title and description pass through the schema's trim setter); the
      others, the id and the creation time stay. */
  function Merge(v: Video, patch: VideoPatch): (r: Video)
    ensures r.id == v.id && r.createdAt == v.createdAt
    ensures patch == EmptyPatch ==> r == v
    ensures patch.title.Some? ==> r.title == Trim(patch.title.value)
    ensures patch.title.None? ==> r.title == v.title
    ensures patch.description.Some? ==> r.description == Trim(patch.description.value)
    ensures patch.description.None? ==> r.description == v.description
    ensures patch.thumbnailUrl.Some? ==> r.thumbnailUrl == patch.thumbnailUrl.value
    ensures patch.thumbnailUrl.None? ==> r.thumbnailUrl == v.thumbnailUrl
    ensures patch.videoUrl.Some? ==> r.videoUrl == patch.videoUrl.value
    ensures patch.videoUrl.None? ==> r.videoUrl == v.videoUrl
    ensures patch.duration.Some? ==> r.duration == patch.duration.value
    ensures patch.duration.None? ==> r.duration == v.duration
    ensures patch.genre.Some? ==> r.genre == patch.genre.value
    ensures patch.genre.None? ==> r.genre == v.genre
    ensures patch.rating.Some? ==> r.rating == patch.rating.value
    ensures patch.rating.None? ==> r.rating == v.rating
    ensures patch.views.Some? ==> r.views == patch.views.value
    ensures patch.views.None? ==> r.views == v.views
    ensures patch.releaseYear.Some? ==> r.releaseYear == patch.releaseYear.value
    ensures patch.releaseYear.None? ==> r.releaseYear == v.releaseYear
    ensures patch.cast.Some? ==> r.cast == patch.cast.value
    ensures patch.cast.None? ==> r.cast == v.cast
    ensures patch.director.Some? ==> r.director == patch.director.value
    ensures patch.director.None? ==> r.director == v.director
    ensures patch.isPublished.Some? ==> r.isPublished == patch.isPublished.value
    ensures patch.isPublished.None? ==> r.isPublished == v.isPublished
    ensures patch.isFeatured.Some? ==> r.isFeatured == patch.isFeatured.value
    ensures patch.isFeatured.None? ==> r.isFeatured == v.isFeatured
  {
    Video(
      v.id,
      if patch.title.Some? then Trim(patch.title.value) else v.title,
      if patch.description.Some? then Trim(patch.description.value) else v.description,
      patch.thumbnailUrl.GetOr(v.thumbnailUrl),
      patch.videoUrl.GetOr(v.videoUrl),
      patch.duration.GetOr(v.duration),
      patch.genre.GetOr(v.genre),
      patch.rating.GetOr(v.rating),
      patch.views.GetOr(v.views),
      patch.releaseYear.GetOr(v.releaseYear),
      patch.cast.GetOr(v.cast),
      patch.director.GetOr(v.director),
      patch.isPublished.GetOr(v.isPublished),
      patch.isFeatured.GetOr(v.isFeatured),
      v.createdAt)
  }

  /** Applying the same body twice is applying it once. */
  lemma MergeIdempotent(v: Video, patch: VideoPatch)
    ensures Merge(Merge(v, patch), patch) == Merge(v, patch)
  {
    MergeLastWins(v, patch, patch);
    assert Override(patch, patch) == patch;
  }

  /** The body that sets every field the later one sets, and every other
      field the earlier one sets. */
  function Override(first: VideoPatch, second: VideoPatch): VideoPatch {
    VideoPatch(
      if second.title.Some? then second.title else first.title,
      if second.description.Some? then second.description else first.description,
      if second.thumbnailUrl.Some? then second.thumbnailUrl else first.thumbnailUrl,
      if second.videoUrl.Some? then second.videoUrl else first.videoUrl,
      if second.duration.Some? then second.duration else first.duration,
      if second.genre.Some? then second.genre else first.genre,
      if second.rating.Some? then second.rating else first.rating,
      if second.views.Some? then second.views else first.views,
      if second.releaseYear.Some? then second.releaseYear else first.releaseYear,
      if second.cast.Some? then second.cast else first.cast,
      if second.director.Some? then second.director else first.director,
      if second.isPublished.Some? then second.isPublished else first.isPublished,
      if second.isFeatured.Some? then second.isFeatured else first.isFeatured)
  }

  /** Every field the later body leaves out is left out by the earlier one too. */
  predicate Covers(second: VideoPatch, first: VideoPatch) {
    && (first.title.Some? ==> second.title.Some?)
    && (first.description.Some? ==> second.description.Some?)
    && (first.thumbnailUrl.Some? ==> second.thumbnailUrl.Some?)
    && (first.videoUrl.Some? ==> second.videoUrl.Some?)
    && (first.duration.Some? ==> second.duration.Some?)
    && (first.genre.Some? ==> second.genre.Some?)
    && (first.rating.Some? ==> second.rating.Some?)
    && (first.views.Some? ==> second.views.Some?)
    && (first.releaseYear.Some? ==> second.releaseYear.Some?)
    && (first.cast.Some? ==> second.cast.Some?)
    && (first.director.Some? ==> second.director.Some?)
    && (first.isPublished.Some? ==> second.isPublished.Some?)
    && (first.isFeatured.Some? ==> second.isFeatured.Some?)
  }

  /** A later body overrides an earlier one field by field: two updates in a
      row are the one update with the later body's fields winning, and a
      later body that sets every field the earlier one set erases it. */
  lemma MergeLastWins(v: Video, first: VideoPatch, second: VideoPatch)
    ensures Merge(Merge(v, first), second) == Merge(v, Override(first, second))
    ensures Covers(second, first) ==> Merge(Merge(v, first), second) == Merge(v, second)
  {
    MergeOverrideText(v, first, second);
    MergeOverrideMedia(v, first, second);
    MergeOverrideCredits(v, first, second);
    MergeOverrideCounters(v, first, second);
    MergeOverrideRating(v, first, second);
    if Covers(second, first) {
      assert Override(first, second) == second;
    }
  }

  lemma MergeOverrideText(v: Video, first: VideoPatch, second: VideoPatch)
    ensures var lhs, rhs := Merge(Merge(v, first), second), Merge(v, Override(first, second));
      lhs.title == rhs.title && lhs.description == rhs.description
  {
  }

  lemma MergeOverrideMedia(v: Video, first: VideoPatch, second: VideoPatch)
    ensures var lhs, rhs := Merge(Merge(v, first), second), Merge(v, Override(first, second));
      lhs.id == rhs.id && lhs.thumbnailUrl == rhs.thumbnailUrl && lhs.videoUrl == rhs.videoUrl && lhs.duration == rhs.duration
  {
  }

  lemma MergeOverrideCredits(v: Video, first: VideoPatch, second: VideoPatch)
    ensures var lhs, rhs := Merge(Merge(v, first), second), Merge(v, Override(first, second));
      lhs.genre == rhs.genre && lhs.releaseYear == rhs.releaseYear && lhs.cast == rhs.cast && lhs.director == rhs.director
  {
  }

  lemma MergeOverrideRating(v: Video, first: VideoPatch, second: VideoPatch)
    ensures Merge(Merge(v, first), second).rating == Merge(v, Override(first, second)).rating
  {
    if second.rating.None? {
      assert Override(first, second).rating == first.rating;
    }
  }

  lemma MergeOverrideCounters(v: Video, first: VideoPatch, second: VideoPatch)
    ensures var lhs, rhs := Merge(Merge(v, first), second), Merge(v, Override(first, second));
      lhs.views == rhs.views && lhs.isPublished == rhs.isPublished && lhs.isFeatured == rhs.isFeatured && lhs.createdAt == rhs.createdAt
  {
    var o := Override(first, second);
    assert o.views == (if second.views.Some? then second.views else first.views);
    assert o.isPublished == (if second.isPublished.Some? then second.isPublished else first.isPublished);
    assert o.isFeatured == (if second.isFeatured.Some? then second.isFeatured else first.isFeatured);
  }

  /** The merged document keeps the schema's trimming and, when the schema
      accepts its fields, is well formed. */
  lemma MergeWellFormed(v: Video, patch: VideoPatch)
    requires WellFormed(v)
    requires Accepts(AsInput(Merge(v, patch)))
    ensures WellFormed(Merge(v, patch))
  {
    var merged := Merge(v, patch);
    assert |Trim(merged.title)| <= |merged.title| && |Trim(merged.description)| <= |merged.description|;
    assert Trimmed(merged.title) && Trimmed(merged.description);
  }

  /** Storing the merge of an accepted body keeps the store's invariant. */
  lemma MergeKeepsInvariant(catalog: seq<Video>, nextId: nat, i: nat, patch: VideoPatch)
    requires StoreInvariant(catalog, nextId) && i < |catalog|
    requires Accepts(AsInput(Merge(catalog[i], patch)))
    ensures StoreInvariant(catalog[i := Merge(catalog[i], patch)], nextId)
  {
    MergeWellFormed(catalog[i], patch);
    ReplaceKeepsInvariant(catalog, nextId, i, Merge(catalog[i], patch));
  }

  // ---------------------------------------------------------------------
  // The publish and feature toggles, as transitions of the collection
  // ---------------------------------------------------------------------

  datatype Flag = Published | Featured

  function Flip(v: Video, flag: Flag): Video {
    match flag
    case Published => v.(isPublished := !v.isPublished)
    case Featured => v.(isFeatured := !v.isFeatured)
  }

  /** The collection after `updatePublishStatus` / `updateFeaturedStatus`:
      only that flag of only that video is negated. */
  function Toggle(catalog: seq<Video>, id: VideoId, flag: Flag): (r: Result<seq<Video>>)
    ensures r.Fail? <==> IndexOf(catalog, id).None?
    ensures r.Fail? ==> r.failure == VideoNotFound
    ensures r.Ok? ==> |r.value| == |catalog|
    ensures r.Ok? ==> forall j :: 0 <= j < |catalog| && catalog[j].id != id ==> r.value[j] == catalog[j]
    ensures r.Ok? ==> forall j :: 0 <= j < |catalog| && catalog[j].id == id && UniqueIds(catalog) ==>
              r.value[j] == Flip(catalog[j], flag)
  {
    match IndexOf(catalog, id)
    case None => Fail(VideoNotFound)
    case Some(i) => Ok(catalog[i := Flip(catalog[i], flag)])
  }

  /** Toggling the same flag twice restores the collection. */
  lemma ToggleTwiceRestores(catalog: seq<Video>, id: VideoId, flag: Flag)
    requires Toggle(catalog, id, flag).Ok?
    ensures Toggle(Toggle(catalog, id, flag).value, id, flag) == Ok(catalog)
  {
    var i := IndexOf(catalog, id).value;
    var once := catalog[i := Flip(catalog[i], flag)];
    IndexOfAfterReplace(catalog, i, Flip(catalog[i], flag), id);
    assert once[i := Flip(once[i], flag)] == catalog;
  }

  /** An unpublished video is hidden from visitors whatever the query; once
      its publish flag is toggled, the same query that matches its text and
      genre lists it for visitors. */
  lemma PublishingRevealsVideo(catalog: seq<Video>, id: VideoId, q: ListQuery)
    requires UniqueIds(catalog)
    requires IndexOf(catalog, id).Some? && !catalog[IndexOf(catalog, id).value].isPublished
    requires var v := catalog[IndexOf(catalog, id).value];
      ListedFor(v.(isPublished := true), q, false)
    ensures catalog[IndexOf(catalog, id).value] !in NewestMatches(catalog, q, false)
    ensures var after := Toggle(catalog, id, Published).value;
      after[IndexOf(catalog, id).value] in NewestMatches(after, q, false)
  {
    var i := IndexOf(catalog, id).value;
    var v := catalog[i];
    var c := ListFilter(q, false);
    var hidden := NewestMatches(catalog, q, false);
    assert !Matches(v, c);
    assert multiset(hidden)[v] == 0;
    var after := Toggle(catalog, id, Published).value;
    var w := after[i];
    assert w == v.(isPublished := true);
    assert Matches(w, c);
    assert w in multiset(after);
    var shown := NewestMatches(after, q, false);
    assert multiset(shown)[w] == multiset(after)[w];
  }

  // ---------------------------------------------------------------------
  // The collection as an object the handlers change in place
  // ---------------------------------------------------------------------

  class VideoStore {
    var videos: seq<Video>
    var nextId: nat

    /** Ids are unique and below the next fresh one; every stored document
        satisfies the schema. */
    ghost predicate Valid()
      reads this
    {
      StoreInvariant(videos, nextId)
    }

    constructor ()
      ensures Valid() && videos == [] && nextId == 0
    {
      videos := [];
      nextId := 0;
    }

    /** `getVideoById`: no publish check; the view count goes up by one and
        nothing else changes. */
    method GetVideoById(id: VideoId) returns (r: Result<Video>)
      requires Valid()
      modifies this
      ensures Valid() && nextId == old(nextId)
      ensures IndexOf(old(videos), id).None? ==> r == Fail(VideoNotFound) && videos == old(videos)
      ensures IndexOf(old(videos), id).Some? ==>
        var i := IndexOf(old(videos), id).value;
        && videos == old(videos)[i := old(videos)[i].(views := old(videos)[i].views + 1)]
        && r == Ok(videos[i])
    {
      var found := IndexOf(videos, id);
      if found.None? {
        return Fail(VideoNotFound);
      }
      var i := found.value;
      var video := videos[i];
      video := video.(views := video.views + 1);
      CountersKeepWellFormed(videos[i], video.views, video.isPublished, video.isFeatured);
      ReplaceKeepsInvariant(videos, nextId, i, video);
      videos := videos[i := video];
      r := Ok(video);
    }

    /** `createVideo`: the body with `isPublished` forced to false, validated
        by the schema and stored under a fresh id. */
    method CreateVideo(caller: Caller, input: VideoInput, now: nat) returns (r: Result<Video>)
      requires caller.isAdmin
      requires Valid()
      modifies this
      ensures Valid()
      ensures r.Ok? <==> Accepts(input)
      ensures r.Fail? ==> r.failure.ValidationError? && videos == old(videos) && nextId == old(nextId)
      ensures r.Ok? ==> && !r.value.isPublished
                        && r.value.createdAt == now
                        && videos == old(videos) + [r.value]
                        && IndexOf(old(videos), r.value.id).None?
                        && nextId == old(nextId) + 1
    ensures r.Ok? ==> Accepts(input.(isPublished := Some(false)))
                      && r.value == NewDocument(input.(isPublished := Some(false)), old(nextId), now)
    {
      var doc := CreateDocument(input.(isPublished := Some(false)), nextId, now);
      assert Accepts(input.(isPublished := Some(false))) == Accepts(input);
      if doc.Fail? {
        return Fail(doc.failure);
      }
      var video := doc.value;
      AppendKeepsInvariant(videos, nextId, video);
      videos := videos + [video];
      nextId := nextId + 1;
      r := Ok(video);
    }

    /** `updateVideo`: merge the body into the stored video and save it; the
        schema may refuse the merged document. */
    method UpdateVideo(caller: Caller, id: VideoId, patch: VideoPatch) returns (r: Result<Video>)
      requires caller.isAdmin
      requires Valid()
      modifies this
      ensures Valid() && nextId == old(nextId)
      ensures IndexOf(old(videos), id).None? ==> r == Fail(VideoNotFound) && videos == old(videos)
      ensures IndexOf(old(videos), id).Some? ==>
        var i := IndexOf(old(videos), id).value;
        var merged := Merge(old(videos)[i], patch);
        if Accepts(AsInput(merged)) then videos == old(videos)[i := merged] && r == Ok(merged)
        else videos == old(videos) && r.Fail? && r.failure.ValidationError?
    {
      var found := IndexOf(videos, id);
      if found.None? {
        return Fail(VideoNotFound);
      }
      var i := found.value;
      var merged := Merge(videos[i], patch);
      var errors := SchemaErrors(AsInput(merged));
      if errors != {} {
        return Fail(ValidationError(errors));
      }
      MergeKeepsInvariant(videos, nextId, i, patch);
      videos := videos[i := merged];
      r := Ok(merged);
    }

    /** `deleteVideo`: the video with that id goes; every other stays, in order. */
    method DeleteVideo(caller: Caller, id: VideoId) returns (r: Result<()>)
      requires caller.isAdmin
      requires Valid()
      modifies this
      ensures Valid() && nextId == old(nextId)
      ensures IndexOf(old(videos), id).None? ==> r == Fail(VideoNotFound) && videos == old(videos)
      ensures IndexOf(old(videos), id).Some? ==>
        var i := IndexOf(old(videos), id).value;
        r == Ok(()) && videos == old(videos)[..i] + old(videos)[i + 1..]
      ensures forall v :: v in videos <==> v in old(videos) && v.id != id
    {
      var found := IndexOf(videos, id);
      if found.None? {
        return Fail(VideoNotFound);
      }
      var i := found.value;
      RemoveAtKeepsOthers(videos, nextId, i);
      videos := videos[..i] + videos[i + 1..];
      r := Ok(());
    }

    /** `updatePublishStatus`: negate `isPublished` of that video. */
    method UpdatePublishStatus(caller: Caller, id: VideoId) returns (r: Result<Video>)
      requires caller.isAdmin
      requires Valid()
      modifies this
      ensures Valid() && nextId == old(nextId)
      ensures Toggle(old(videos), id, Published).Fail? ==> r == Fail(VideoNotFound) && videos == old(videos)
      ensures Toggle(old(videos), id, Published).Ok? ==>
        videos == Toggle(old(videos), id, Published).value && r == Ok(videos[IndexOf(videos, id).value])
    {
      r := ToggleFlag(id, Published);
    }

    /** `updateFeaturedStatus`: negate `isFeatured` of that video. */
    method UpdateFeaturedStatus(caller: Caller, id: VideoId) returns (r: Result<Video>)
      requires caller.isAdmin
      requires Valid()
      modifies this
      ensures Valid() && nextId == old(nextId)
      ensures Toggle(old(videos), id, Featured).Fail? ==> r == Fail(VideoNotFound) && videos == old(videos)
      ensures Toggle(old(videos), id, Featured).Ok? ==>
        videos == Toggle(old(videos), id, Featured).value && r == Ok(videos[IndexOf(videos, id).value])
    {
      r := ToggleFlag(id, Featured);
    }

    method ToggleFlag(id: VideoId, flag: Flag) returns (r: Result<Video>)
      requires Valid()
      modifies this
      ensures Valid() && nextId == old(nextId)
      ensures Toggle(old(videos), id, flag).Fail? ==> r == Fail(VideoNotFound) && videos == old(videos)
      ensures Toggle(old(videos), id, flag).Ok? ==>
        videos == Toggle(old(videos), id, flag).value && r == Ok(videos[IndexOf(videos, id).value])
    {
      var found := IndexOf(videos, id);
      if found.None? {
        return Fail(VideoNotFound);
      }
      var i := found.value;
      var video := Flip(videos[i], flag);
      CountersKeepWellFormed(videos[i], video.views, video.isPublished, video.isFeatured);
      ReplaceKeepsInvariant(videos, nextId, i, video);
      IndexOfAfterReplace(videos, i, video, id);
      videos := videos[i := video];
      r := Ok(video);
    }
  }
}
