/**
 * The catalog database as one object whose tables are sequences of rows,
 * and the writes files/models.py performs on it: the `save()` hooks of
 * `VideoMedia` and `Comment`, and inserts guarded by `unique` and
 * `unique_together` constraints, which the database refuses with a
 * conflict instead of storing a second row.
 */
module Store {
  import opened Wrappers
  import opened Rows
  import opened Models

  /** The placeholder `VideoMedia.save` stores when no file was given. */
  const DEFAULT_MEDIA_PATH: string := "videos/default.mp4"

  /** The row `VideoMedia.save` writes: the placeholder file when none is set, the row untouched otherwise. */
  function WithDefaultPath(m: VideoMedia): (r: VideoMedia)
    ensures r.filePath != ""
    ensures m.filePath != "" ==> r == m
    ensures m.filePath == "" ==> r == m.(filePath := DEFAULT_MEDIA_PATH)
  {
    if m.filePath == "" then m.(filePath := DEFAULT_MEDIA_PATH) else m
  }

  /** `Comment.objects.filter(video=v).count()`: every comment on `v`, approved or not. */
  function CommentCount(cs: seq<Comment>, v: nat): (n: nat)
    ensures n <= |cs|
  {
    if cs == [] then 0 else (if cs[0].video == v then 1 else 0) + CommentCount(cs[1..], v)
  }

  lemma {:induction false} CommentCountAppend(a: seq<Comment>, b: seq<Comment>, v: nat)
    ensures CommentCount(a + b, v) == CommentCount(a, v) + CommentCount(b, v)
  {
    if a != [] {
      CommentCountAppend(a[1..], b, v);
      assert (a + b)[1..] == a[1..] + b;
    } else {
      assert a + b == b;
    }
  }

  /** Saving a new comment on `c.video` raises that video's count by one and no other count. */
  lemma NewCommentCounts(cs: seq<Comment>, c: Comment, v: nat)
    ensures CommentCount(cs + [c], v) == CommentCount(cs, v) + (if c.video == v then 1 else 0)
  {
    CommentCountAppend(cs, [c], v);
    assert [c][1..] == [];
  }

  /** Approving or rejecting a comment changes no count: the count ignores `is_approved`. */
  lemma {:induction false} CommentCountIgnoresApproval(cs: seq<Comment>, i: nat, approved: bool, v: nat)
    requires i < |cs|
    ensures CommentCount(cs[i := cs[i].(isApproved := approved)], v) == CommentCount(cs, v)
  {
    if i > 0 {
      CommentCountIgnoresApproval(cs[1..], i - 1, approved, v);
      assert cs[i := cs[i].(isApproved := approved)][1..] == cs[1..][i - 1 := cs[i].(isApproved := approved)];
    }
  }

  /** Why a save was refused. */
  datatype SaveError = MissingVideo | DuplicateUid

  /** Some other comment already holds `uid`: the `unique=True` constraint on `Comment.uid` would fail. */
  predicate UidClash(cs: seq<Comment>, id: nat, uid: string) {
    exists i :: 0 <= i < |cs| && cs[i].id != id && cs[i].uid == uid
  }

  /** The comment table: keyed below `next`, and every uid present and unique. */
  ghost predicate ValidComments(cs: seq<Comment>, next: nat) {
    && next > 0 && KeyedBelow(cs, CommentId, next) && Distinct(cs, CommentUid)
    && forall i :: 0 <= i < |cs| ==> cs[i].uid != ""
  }

  /** A save that the uid constraint admits keeps the comment table valid. */
  lemma SaveKeepsComments(cs: seq<Comment>, saved: Comment, next: nat)
    requires ValidComments(cs, next)
    requires saved.id > 0 && saved.uid != ""
    requires !UidClash(cs, saved.id, saved.uid)
    ensures ValidComments(Upsert(cs, saved, CommentId), if next <= saved.id then saved.id + 1 else next)
  {
    UpsertKeepsDistinct(cs, saved, CommentId, CommentUid);
    UpsertKeyed(cs, saved, CommentId, next);
    var r := Upsert(cs, saved, CommentId);
    forall i | 0 <= i < |r| ensures r[i].uid != "" {
      assert r[i] in r;
      if r[i] != saved {
        var j :| 0 <= j < |cs| && cs[j] == r[i];
      }
    }
  }

  /** Writing only `comment_count` of the row at `k` keeps the video table keyed as before. */
  lemma CountWriteKeepsKeys(vs: seq<Video>, k: nat, n: nat, next: nat)
    requires KeyedBelow(vs, VideoId, next) && k < |vs|
    ensures KeyedBelow(vs[k := vs[k].(commentCount := n)], VideoId, next)
    ensures CountWritten(vs, vs[k := vs[k].(commentCount := n)], vs[k].id, n)
  {
    var after := vs[k := vs[k].(commentCount := n)];
    forall i, j | 0 <= i < j < |after| ensures VideoId(after[i]) != VideoId(after[j]) {
      assert after[i].id == vs[i].id && after[j].id == vs[j].id;
    }
    forall i | 0 <= i < |vs|
      ensures after[i] == if vs[i].id == vs[k].id then vs[i].(commentCount := n) else vs[i]
    {
      if i != k { assert VideoId(vs[i]) != VideoId(vs[k]); }
    }
  }

  /**
   * The row `Comment.save()` writes: the primary key the database gives a
   * new comment (`id == 0`) or its own, and `generatedUid` only when `uid` is empty.
   */
  function ToSave(c: Comment, next: nat, generatedUid: string): (s: Comment)
    requires next > 0 && generatedUid != ""
    ensures s.id > 0 && s.uid != ""
    ensures s.uid == if c.uid == "" then generatedUid else c.uid
    ensures s == c.(id := s.id, uid := s.uid)
  {
    c.(id := if c.id == 0 then next else c.id, uid := if c.uid == "" then generatedUid else c.uid)
  }

  /** Every row of `vs` except video `v`, whose count becomes `n`: `save(update_fields=['comment_count'])`. */
  ghost predicate CountWritten(before: seq<Video>, after: seq<Video>, v: nat, n: nat) {
    && |after| == |before|
    && forall i :: 0 <= i < |before| ==>
         after[i] == if before[i].id == v then before[i].(commentCount := n) else before[i]
  }

  /** `name=name` on the `Actor` or `Director` table. */
  function HasName(name: string): Person -> bool {
    (p: Person) => p.name == name
  }

  /** The rows of a cast table named `name`, in table order. */
  function Named(t: seq<Person>, name: string): (r: seq<Person>)
    ensures forall p :: p in r <==> p in t && p.name == name
    ensures forall i :: 0 <= i < |r| ==> r[i].name == name
  {
    Filter(t, HasName(name))
  }

  /** The row `VideoMedia.objects.create(file=..., media_type=...)` builds: every other field at its default. */
  function NewMedia(filePath: string, mediaType: string): (m: VideoMedia)
    ensures m.id == 0 && m.filePath == filePath && m.mediaType == mediaType
    ensures m.fileSize == 0 && m.quality == P720 && !m.isDefault
  {
    VideoMedia(0, filePath, 0, 0, mediaType, P720, false, 0, 0)
  }

  class CatalogStore {
    var categories: seq<Category>
    var tags: seq<Tag>
    var videos: seq<Video>
    var videoCategories: seq<VideoCategory>
    var videoTags: seq<VideoTag>
    var media: seq<VideoMedia>
    var mediaLinks: seq<MediaLink>
    var comments: seq<Comment>
    var ratings: seq<Rating>
    var caches: seq<VideoCache>
    var actors: seq<Person>
    var directors: seq<Person>
    var videoActors: seq<VideoActor>
    var videoDirectors: seq<VideoDirector>
    var playlistMusic: seq<PlaylistMusic>
    // The next value each auto-increment primary key hands out.
    var nextCategoryId: nat
    var nextTagId: nat
    var nextVideoId: nat
    var nextMediaId: nat
    var nextCommentId: nat
    var nextActorId: nat
    var nextDirectorId: nat

    /**
     * The constraints the schema declares, the invariants the writers keep
     * beyond them (no repeated `VideoCategory` pair, links to handed-out
     * keys), and every primary key below its counter. A writer confined to a few tables requires and keeps only the
     * part of `Valid()` about those tables; its `modifies` clause keeps the
     * rest as it was.
     */
    ghost predicate Valid()
      reads this
    {
      && ValidTaxonomy() && ValidVideos() && ValidMedia() && ValidComments(comments, nextCommentId)
      && ValidCast() && ValidJunctions() && ValidLinks()
    }

    ghost predicate ValidTaxonomy()
      reads this`categories, this`nextCategoryId, this`tags, this`nextTagId
    {
      && KeyedBelow(categories, CategoryId, nextCategoryId) && Distinct(categories, CategorySlug)
      && KeyedBelow(tags, TagId, nextTagId) && Distinct(tags, TagSlug)
      && nextCategoryId > 0 && nextTagId > 0
    }

    ghost predicate ValidVideos()
      reads this`videos, this`nextVideoId
    {
      KeyedBelow(videos, VideoId, nextVideoId) && nextVideoId > 0
    }

    ghost predicate ValidMedia()
      reads this`media, this`nextMediaId, this`mediaLinks
    {
      KeyedBelow(media, MediaId, nextMediaId) && nextMediaId > 0 && NoDuplicates(mediaLinks)
    }

    ghost predicate ValidCast()
      reads this`actors, this`nextActorId, this`directors, this`nextDirectorId
    {
      && KeyedBelow(actors, PersonId, nextActorId) && nextActorId > 0
      && KeyedBelow(directors, PersonId, nextDirectorId) && nextDirectorId > 0
    }

    /**
     * The `unique_together` pairs of the through models, and no repeated
     * pair in the link tables. For `tags` and `media_files` the junction
     * tables Django creates declare that uniqueness. The `VideoCategory`
     * through model of `categories` declares none: its pairs stay unique
     * only because `add()` skips a pair already present and nothing else
     * writes that table.
     */
    ghost predicate ValidJunctions()
      reads this`ratings, this`caches, this`videoActors, this`videoDirectors, this`playlistMusic,
        this`videoCategories, this`videoTags
    {
      && Distinct(ratings, RatingKey) && Distinct(caches, CacheKey)
      && Distinct(videoActors, VideoActorKey) && Distinct(videoDirectors, VideoDirectorKey)
      && Distinct(playlistMusic, PlaylistMusicKey)
      && NoDuplicates(videoCategories) && NoDuplicates(videoTags)
    }

    /**
     * The foreign keys of the link rows: each names a video, and a media
     * link also a rendition, whose key was handed out before the link was
     * written. No row is ever deleted, so a fresh key has no links yet.
     */
    ghost predicate ValidLinks()
      reads this`videoCategories, this`videoTags, this`mediaLinks, this`nextVideoId, this`nextMediaId
    {
      && (forall l :: l in videoCategories ==> l.video < nextVideoId)
      && (forall l :: l in videoTags ==> l.video < nextVideoId)
      && (forall l :: l in mediaLinks ==> l.video < nextVideoId && l.media < nextMediaId)
    }

    /** The tables the listing views query. */
    function Snapshot(): (db: Catalog)
      reads this
      ensures db.categories == categories && db.videos == videos
      ensures db.videoCategories == videoCategories && db.videoTags == videoTags
    {
      Catalog(categories, videos, videoCategories, videoTags)
    }

    /** The `Actor` or the `Director` table. */
    function People(role: Role): seq<Person>
      reads this`actors, this`directors
    {
      if role == ActorRole then actors else directors
    }

    constructor ()
      ensures Valid()
      ensures categories == [] && tags == [] && videos == [] && videoCategories == [] && videoTags == []
      ensures media == [] && mediaLinks == [] && comments == [] && ratings == [] && caches == []
      ensures actors == [] && directors == [] && videoActors == [] && videoDirectors == []
      ensures playlistMusic == []
    {
      categories, tags, videos, videoCategories, videoTags := [], [], [], [], [];
      media, mediaLinks, comments, ratings, caches := [], [], [], [], [];
      actors, directors, videoActors, videoDirectors, playlistMusic := [], [], [], [], [];
      nextCategoryId, nextTagId, nextVideoId, nextMediaId := 1, 1, 1, 1;
      nextCommentId, nextActorId, nextDirectorId := 1, 1, 1;
    }

    /** Inserts a category; the `unique=True` slug refuses a second category with the same slug. */
    method AddCategory(c: Category) returns (id: Option<nat>)
      requires Valid()
      modifies this`categories, this`nextCategoryId
      ensures Valid()
      ensures id.None? <==> KeyTaken(old(categories), CategorySlug, c.slug)
      ensures id.None? ==> categories == old(categories)
      ensures id.Some? ==> categories == old(categories) + [c.(id := id.value)]
      ensures id.Some? ==> !KeyTaken(old(categories), CategoryId, id.value)
    {
      id := InsertCategory(c);
    }

    /** The insert of `AddCategory` on the taxonomy tables alone. */
    method InsertCategory(c: Category) returns (id: Option<nat>)
      requires ValidTaxonomy()
      modifies this`categories, this`nextCategoryId
      ensures ValidTaxonomy()
      ensures id.None? <==> KeyTaken(old(categories), CategorySlug, c.slug)
      ensures id.None? ==> categories == old(categories)
      ensures id.Some? ==> categories == old(categories) + [c.(id := id.value)]
      ensures id.Some? ==> !KeyTaken(old(categories), CategoryId, id.value)
    {
      if KeyTaken(categories, CategorySlug, c.slug) {
        return None;
      }
      var row := c.(id := nextCategoryId);
      assert CategorySlug(row) == c.slug;
      AppendKeepsDistinct(categories, row, CategorySlug);
      InsertNextKey(categories, row, CategoryId, nextCategoryId);
      categories := categories + [row];
      id := Some(nextCategoryId);
      nextCategoryId := nextCategoryId + 1;
    }

    /** Inserts a tag; the `unique=True` slug refuses a second tag with the same slug. */
    method AddTag(t: Tag) returns (id: Option<nat>)
      requires Valid()
      modifies this`tags, this`nextTagId
      ensures Valid()
      ensures id.None? <==> KeyTaken(old(tags), TagSlug, t.slug)
      ensures id.None? ==> tags == old(tags)
      ensures id.Some? ==> tags == old(tags) + [t.(id := id.value)]
    {
      id := InsertTag(t);
    }

    /** The insert of `AddTag` on the taxonomy tables alone. */
    method InsertTag(t: Tag) returns (id: Option<nat>)
      requires ValidTaxonomy()
      modifies this`tags, this`nextTagId
      ensures ValidTaxonomy()
      ensures id.None? <==> KeyTaken(old(tags), TagSlug, t.slug)
      ensures id.None? ==> tags == old(tags)
      ensures id.Some? ==> tags == old(tags) + [t.(id := id.value)]
    {
      if KeyTaken(tags, TagSlug, t.slug) {
        return None;
      }
      var row := t.(id := nextTagId);
      assert TagSlug(row) == t.slug;
      AppendKeepsDistinct(tags, row, TagSlug);
      InsertNextKey(tags, row, TagId, nextTagId);
      tags := tags + [row];
      id := Some(nextTagId);
      nextTagId := nextTagId + 1;
    }

    /** `Video.objects.create(...)`: the row gets the next primary key. */
    method CreateVideo(v: Video) returns (id: nat)
      requires ValidVideos() && ValidLinks()
      modifies this`videos, this`nextVideoId
      ensures ValidVideos() && ValidLinks()
      ensures videos == old(videos) + [v.(id := id)]
      ensures !KeyTaken(old(videos), VideoId, id) && id > 0
      ensures id == old(nextVideoId) && nextVideoId == id + 1
    {
      id := nextVideoId;
      InsertNextKey(videos, v.(id := id), VideoId, nextVideoId);
      videos := videos + [v.(id := id)];
      nextVideoId := nextVideoId + 1;
    }

    /** `video.categories.add(category)`: adding a link that exists already does nothing. */
    method AttachCategory(video: nat, category: nat)
      requires ValidJunctions() && ValidLinks()
      requires video < nextVideoId
      modifies this`videoCategories
      ensures ValidJunctions() && ValidLinks()
      ensures VideoCategory(video, category) in videoCategories
      ensures videoCategories == if VideoCategory(video, category) in old(videoCategories)
        then old(videoCategories) else old(videoCategories) + [VideoCategory(video, category)]
    {
      if VideoCategory(video, category) !in videoCategories {
        videoCategories := videoCategories + [VideoCategory(video, category)];
      }
    }

    /** `video.tags.add(tag)`, idempotent like every many-to-many `add`. */
    method AttachTag(video: nat, tag: nat)
      requires ValidJunctions() && ValidLinks()
      requires video < nextVideoId
      modifies this`videoTags
      ensures ValidJunctions() && ValidLinks()
      ensures VideoTag(video, tag) in videoTags
      ensures videoTags == if VideoTag(video, tag) in old(videoTags)
        then old(videoTags) else old(videoTags) + [VideoTag(video, tag)]
    {
      if VideoTag(video, tag) !in videoTags {
        videoTags := videoTags + [VideoTag(video, tag)];
      }
    }

    /** `video.media_files.add(media)`. */
    method LinkMedia(video: nat, mediaId: nat)
      requires ValidMedia() && ValidLinks()
      requires video < nextVideoId && mediaId < nextMediaId
      modifies this`mediaLinks
      ensures ValidMedia() && ValidLinks()
      ensures MediaLink(video, mediaId) in mediaLinks
      ensures mediaLinks == if MediaLink(video, mediaId) in old(mediaLinks)
        then old(mediaLinks) else old(mediaLinks) + [MediaLink(video, mediaId)]
    {
      if MediaLink(video, mediaId) !in mediaLinks {
        mediaLinks := mediaLinks + [MediaLink(video, mediaId)];
      }
    }

    /**
     * `VideoMedia.save()`: a row without a primary key (`m.id == 0`) is
     * inserted under the next key, a row with one is written over the row
     * with that key; either way an empty file path becomes the placeholder.
     */
    method SaveMedia(m: VideoMedia) returns (id: nat)
      requires Valid()
      modifies this`media, this`nextMediaId
      ensures Valid()
      ensures id == if m.id == 0 then old(nextMediaId) else m.id
      ensures media == Upsert(old(media), WithDefaultPath(m.(id := id)), MediaId)
    {
      id := WriteMedia(m);
    }

    /** The write of `SaveMedia` on the media tables alone. */
    method WriteMedia(m: VideoMedia) returns (id: nat)
      requires ValidMedia() && ValidLinks()
      modifies this`media, this`nextMediaId
      ensures ValidMedia() && ValidLinks()
      ensures id == if m.id == 0 then old(nextMediaId) else m.id
      ensures nextMediaId == if old(nextMediaId) <= id then id + 1 else old(nextMediaId)
      ensures media == Upsert(old(media), WithDefaultPath(m.(id := id)), MediaId)
    {
      id := if m.id == 0 then nextMediaId else m.id;
      var row := WithDefaultPath(m.(id := id));
      UpsertKeyed(media, row, MediaId, nextMediaId);
      media := Upsert(media, row, MediaId);
      if nextMediaId <= id {
        nextMediaId := id + 1;
      }
    }

    /** `VideoMedia.objects.create(...)`: a new row, saved through `VideoMedia.save()`, under the next key. */
    method CreateMedia(m: VideoMedia) returns (id: nat)
      requires ValidMedia() && ValidLinks()
      requires m.id == 0
      modifies this`media, this`nextMediaId
      ensures ValidMedia() && ValidLinks()
      ensures id > 0 && !KeyTaken(old(media), MediaId, id)
      ensures id == old(nextMediaId) && nextMediaId == id + 1
      ensures media == old(media) + [WithDefaultPath(m.(id := id))]
    {
      assert !KeyTaken(media, MediaId, nextMediaId);
      id := WriteMedia(m);
    }

    /**
     * `Actor.objects.get_or_create(name=name, defaults=...)`, or the same on
     * `Director`: the one row with that name; a new row with `description`
     * and status `active` when there is none; `None` when several rows have
     * the name (`MultipleObjectsReturned`). The other table is untouched.
     */
    method GetOrCreate(role: Role, name: string, description: string) returns (r: Option<Person>)
      requires Valid()
      modifies this`actors, this`nextActorId, this`directors, this`nextDirectorId
      ensures Valid()
      ensures role == ActorRole ==> directors == old(directors)
      ensures role == DirectorRole ==> actors == old(actors)
      ensures r.None? <==> |Named(old(People(role)), name)| >= 2
      ensures r.None? ==> People(role) == old(People(role))
      ensures |Named(old(People(role)), name)| == 1 ==>
        r == Some(Named(old(People(role)), name)[0]) && People(role) == old(People(role))
      ensures |Named(old(People(role)), name)| == 0 ==>
        && r.Some? && r.value.name == name && r.value.description == description && r.value.status == "active"
        && !KeyTaken(old(People(role)), PersonId, r.value.id)
        && People(role) == old(People(role)) + [r.value]
    {
      r := GetOrInsertPerson(role, name, description);
    }

    /** The lookup and insert of `GetOrCreate` on the cast tables alone. */
    method GetOrInsertPerson(role: Role, name: string, description: string) returns (r: Option<Person>)
      requires ValidCast()
      modifies this`actors, this`nextActorId, this`directors, this`nextDirectorId
      ensures ValidCast()
      ensures role == ActorRole ==> directors == old(directors)
      ensures role == DirectorRole ==> actors == old(actors)
      ensures r.None? <==> |Named(old(People(role)), name)| >= 2
      ensures r.None? ==> People(role) == old(People(role))
      ensures |Named(old(People(role)), name)| == 1 ==>
        r == Some(Named(old(People(role)), name)[0]) && People(role) == old(People(role))
      ensures |Named(old(People(role)), name)| == 0 ==>
        && r.Some? && r.value.name == name && r.value.description == description && r.value.status == "active"
        && !KeyTaken(old(People(role)), PersonId, r.value.id)
        && People(role) == old(People(role)) + [r.value]
    {
      var found := Named(People(role), name);
      if |found| >= 2 {
        return None;
      }
      if |found| == 1 {
        return Some(found[0]);
      }
      if role == ActorRole {
        var p := Person(nextActorId, name, description, "active");
        InsertNextKey(actors, p, PersonId, nextActorId);
        actors := actors + [p];
        nextActorId := nextActorId + 1;
        r := Some(p);
      } else {
        var p := Person(nextDirectorId, name, description, "active");
        InsertNextKey(directors, p, PersonId, nextDirectorId);
        directors := directors + [p];
        nextDirectorId := nextDirectorId + 1;
        r := Some(p);
      }
    }

    /**
     * `Comment.save()`: a comment without a `uid` is given `generatedUid`
     * (the `uuid4()` drawn for it), a comment with one keeps it; the row is
     * stored, and then its video's `comment_count` is set to the number of
     * comments on that video. No other video and no other field changes.
     * The database refuses the save when the video does not exist or the
     * uid belongs to another comment.
     */
    method SaveComment(c: Comment, generatedUid: string) returns (r: Result<nat, SaveError>)
      requires Valid()
      requires generatedUid != ""
      modifies this`comments, this`videos, this`nextCommentId
      ensures Valid()
      ensures r == Failure(MissingVideo) <==> !KeyTaken(old(videos), VideoId, c.video)
      ensures r == Failure(DuplicateUid) <==>
        (KeyTaken(old(videos), VideoId, c.video)
         && UidClash(old(comments), ToSave(c, old(nextCommentId), generatedUid).id, ToSave(c, old(nextCommentId), generatedUid).uid))
      ensures r.Failure? ==> comments == old(comments) && videos == old(videos)
      ensures r.Success? ==> r.value == ToSave(c, old(nextCommentId), generatedUid).id
      ensures r.Success? ==> comments == Upsert(old(comments), ToSave(c, old(nextCommentId), generatedUid), CommentId)
      ensures r.Success? ==> CountWritten(old(videos), videos, c.video, CommentCount(comments, c.video))
    {
      r := AdmitComment(c, generatedUid);
    }

    /** `Comment.save()` on the two tables it touches. */
    method AdmitComment(c: Comment, generatedUid: string) returns (r: Result<nat, SaveError>)
      requires ValidComments(comments, nextCommentId) && ValidVideos()
      requires generatedUid != ""
      modifies this`comments, this`videos, this`nextCommentId
      ensures ValidComments(comments, nextCommentId) && ValidVideos()
      ensures r == Failure(MissingVideo) <==> !KeyTaken(old(videos), VideoId, c.video)
      ensures r == Failure(DuplicateUid) <==>
        (KeyTaken(old(videos), VideoId, c.video)
         && UidClash(old(comments), ToSave(c, old(nextCommentId), generatedUid).id, ToSave(c, old(nextCommentId), generatedUid).uid))
      ensures r.Failure? ==> comments == old(comments) && videos == old(videos)
      ensures r.Success? ==> r.value == ToSave(c, old(nextCommentId), generatedUid).id
      ensures r.Success? ==> comments == Upsert(old(comments), ToSave(c, old(nextCommentId), generatedUid), CommentId)
      ensures r.Success? ==> CountWritten(old(videos), videos, c.video, CommentCount(comments, c.video))
    {
      var saved := ToSave(c, nextCommentId, generatedUid);
      var k := IndexOf(videos, VideoId, c.video);
      if k.None? {
        r := Failure(MissingVideo);
      } else if UidClash(comments, saved.id, saved.uid) {
        r := Failure(DuplicateUid);
      } else {
        WriteComment(saved, k.value);
        r := Success(saved.id);
      }
    }

    /** The writes of an admitted `Comment.save()`: the row, then its video's count. */
    method WriteComment(saved: Comment, k: nat)
      requires ValidComments(comments, nextCommentId) && ValidVideos()
      requires saved.id > 0 && saved.uid != "" && !UidClash(comments, saved.id, saved.uid)
      requires k < |videos| && videos[k].id == saved.video
      modifies this`comments, this`videos, this`nextCommentId
      ensures ValidComments(comments, nextCommentId) && ValidVideos()
      ensures comments == Upsert(old(comments), saved, CommentId)
      ensures nextCommentId == if old(nextCommentId) <= saved.id then saved.id + 1 else old(nextCommentId)
      ensures CountWritten(old(videos), videos, saved.video, CommentCount(comments, saved.video))
    {
      SaveKeepsComments(comments, saved, nextCommentId);
      comments := Upsert(comments, saved, CommentId);
      if nextCommentId <= saved.id {
        nextCommentId := saved.id + 1;
      }
      var n := CommentCount(comments, saved.video);
      CountWriteKeepsKeys(videos, k, n, nextVideoId);
      videos := videos[k := videos[k].(commentCount := n)];
    }

    /** Inserts a rating; `unique_together = ['video', 'user']` refuses a second one for the pair. */
    method AddRating(x: Rating) returns (ok: bool)
      requires Valid()
      modifies this`ratings
      ensures Valid()
      ensures ok <==> !KeyTaken(old(ratings), RatingKey, RatingKey(x))
      ensures ratings == if ok then old(ratings) + [x] else old(ratings)
    {
      ok := !KeyTaken(ratings, RatingKey, RatingKey(x));
      if ok {
        AppendKeepsDistinct(ratings, x, RatingKey);
        ratings := ratings + [x];
      }
    }

    /** Inserts a cache record; `unique_together = ['video', 'quality']`. */
    method AddCache(x: VideoCache) returns (ok: bool)
      requires Valid()
      modifies this`caches
      ensures Valid()
      ensures ok <==> !KeyTaken(old(caches), CacheKey, CacheKey(x))
      ensures caches == if ok then old(caches) + [x] else old(caches)
    {
      ok := !KeyTaken(caches, CacheKey, CacheKey(x));
      if ok {
        AppendKeepsDistinct(caches, x, CacheKey);
        caches := caches + [x];
      }
    }

    /** Links an actor to a video; `unique_together = ['video', 'actor']`. */
    method AddVideoActor(x: VideoActor) returns (ok: bool)
      requires Valid()
      modifies this`videoActors
      ensures Valid()
      ensures ok <==> !KeyTaken(old(videoActors), VideoActorKey, VideoActorKey(x))
      ensures videoActors == if ok then old(videoActors) + [x] else old(videoActors)
    {
      ok := !KeyTaken(videoActors, VideoActorKey, VideoActorKey(x));
      if ok {
        AppendKeepsDistinct(videoActors, x, VideoActorKey);
        videoActors := videoActors + [x];
      }
    }

    /** Links a director to a video; `unique_together = ['video', 'director']`. */
    method AddVideoDirector(x: VideoDirector) returns (ok: bool)
      requires Valid()
      modifies this`videoDirectors
      ensures Valid()
      ensures ok <==> !KeyTaken(old(videoDirectors), VideoDirectorKey, VideoDirectorKey(x))
      ensures videoDirectors == if ok then old(videoDirectors) + [x] else old(videoDirectors)
    {
      ok := !KeyTaken(videoDirectors, VideoDirectorKey, VideoDirectorKey(x));
      if ok {
        AppendKeepsDistinct(videoDirectors, x, VideoDirectorKey);
        videoDirectors := videoDirectors + [x];
      }
    }

    /** Puts a track on a playlist; `unique_together = ['playlist', 'music']`. */
    method AddPlaylistMusic(x: PlaylistMusic) returns (ok: bool)
      requires Valid()
      modifies this`playlistMusic
      ensures Valid()
      ensures ok <==> !KeyTaken(old(playlistMusic), PlaylistMusicKey, PlaylistMusicKey(x))
      ensures playlistMusic == if ok then old(playlistMusic) + [x] else old(playlistMusic)
    {
      ok := !KeyTaken(playlistMusic, PlaylistMusicKey, PlaylistMusicKey(x));
      if ok {
        AppendKeepsDistinct(playlistMusic, x, PlaylistMusicKey);
        playlistMusic := playlistMusic + [x];
      }
    }
  }
}
