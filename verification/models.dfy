/**
 * The rows of the catalog (files/models.py): taxonomy, videos and their
 * renditions, interaction records, cast and the junction rows, together
 * with the default values and default orderings their declarations give.
 * File, image and JSON fields are left out; timestamps are abstract
 * integers that grow with time.
 */
module Models {
  import opened Wrappers
  import opened Ordering
  import Text

  datatype VideoType = Single | Series | Short
  datatype VideoStatus = Draft | Processing | Published | Blocked
  datatype Quality = P240 | P480 | P720 | P1080
  datatype UpdateStatus = Ongoing | Completed

  /** Whom a cast name is recorded as: `Actor` or `Director`. */
  datatype Role = ActorRole | DirectorRole

  /** A node of the self-referencing category tree; `parent` is an id or none. */
  datatype Category = Category(
    id: nat, name: string, slug: string, description: string, parent: Option<nat>,
    mediaType: string, categoryType: Option<string>, isRoot: bool, showInMenu: bool,
    order: int, isActive: bool)

  datatype TagCategory = TagCategory(id: nat, name: string, slug: Option<string>, order: int, isActive: bool)

  datatype Tag = Tag(id: nat, name: string, slug: string, category: Option<nat>, order: int, isActive: bool)

  /** One rendition of a video; `filePath` is the stored file name, "" when none was given. */
  datatype VideoMedia = VideoMedia(
    id: nat, filePath: string, fileSize: int, duration: int, mediaType: string,
    quality: Quality, isDefault: bool, episodeIndex: int, sourceIndex: int)

  datatype Video = Video(
    id: nat, title: string, description: string, videoType: VideoType, status: VideoStatus,
    duration: int, views: int, playCount: int, likeCount: int, commentCount: int,
    totalEpisodes: int, currentEpisodes: int, updateStatus: UpdateStatus,
    isActive: bool, createdAt: int, createdBy: nat)

  datatype SeriesVideo = SeriesVideo(
    video: nat, seriesTitle: string, episodeNumber: int, totalEpisodes: int, updateStatus: UpdateStatus)

  /** A threaded comment; `uid` is "" until the first save gives it one. */
  datatype Comment = Comment(
    id: nat, video: nat, user: nat, text: string, parent: Option<nat>,
    isApproved: bool, addDate: int, uid: string)

  datatype Rating = Rating(video: nat, user: nat, score: int)
  datatype VideoCache = VideoCache(video: nat, quality: string, filePath: string, fileSize: int)

  /** An `Actor` or a `Director` row: the two models have the same fields. */
  datatype Person = Person(id: nat, name: string, description: string, status: string)

  datatype VideoActor = VideoActor(video: nat, actor: nat, role: Option<string>, isMain: bool, order: int)
  datatype VideoDirector = VideoDirector(video: nat, director: nat, isMain: bool, order: int)
  datatype PlaylistMusic = PlaylistMusic(playlist: nat, music: nat, order: int)

  /** Junction rows of the many-to-many relations `Video.categories`, `Video.tags`, `Video.media_files`. */
  datatype VideoCategory = VideoCategory(video: nat, category: nat)
  datatype VideoTag = VideoTag(video: nat, tag: nat)
  datatype MediaLink = MediaLink(video: nat, media: nat)

  /** The tables the listing views read. */
  datatype Catalog = Catalog(
    categories: seq<Category>, videos: seq<Video>,
    videoCategories: seq<VideoCategory>, videoTags: seq<VideoTag>)

  /** A video as `Video(...)` builds it from the fields given, every other field at its declared default. */
  function NewVideo(id: nat, title: string, description: string, createdAt: int, createdBy: nat): (v: Video)
    ensures v.id == id && v.title == title && v.description == description
    ensures v.status == Draft && v.videoType == Single && v.isActive
    ensures v.views == 0 && v.playCount == 0 && v.likeCount == 0 && v.commentCount == 0
    ensures v.duration == 0 && v.totalEpisodes == 1 && v.currentEpisodes == 1 && v.updateStatus == Completed
    ensures v.createdAt == createdAt && v.createdBy == createdBy
  {
    Video(id, title, description, Single, Draft, 0, 0, 0, 0, 0, 1, 1, Completed, true, createdAt, createdBy)
  }

  // Keys of the unique constraints, as functions so that tables can be compared by them.

  function CategoryId(c: Category): nat { c.id }
  function CategorySlug(c: Category): string { c.slug }
  function TagId(t: Tag): nat { t.id }
  function TagSlug(t: Tag): string { t.slug }
  function VideoId(v: Video): nat { v.id }
  function MediaId(m: VideoMedia): nat { m.id }
  function CommentId(c: Comment): nat { c.id }
  function CommentUid(c: Comment): string { c.uid }
  function PersonId(p: Person): nat { p.id }
  function RatingKey(r: Rating): (nat, nat) { (r.video, r.user) }
  function CacheKey(c: VideoCache): (nat, string) { (c.video, c.quality) }
  function VideoActorKey(l: VideoActor): (nat, nat) { (l.video, l.actor) }
  function VideoDirectorKey(l: VideoDirector): (nat, nat) { (l.video, l.director) }
  function PlaylistMusicKey(l: PlaylistMusic): (nat, nat) { (l.playlist, l.music) }

  // Orderings: `Meta.ordering` of each model and the explicit `order_by` keys of the views.

  /** `Category.Meta.ordering = ['order', 'id']`. */
  predicate CategoryDefaultLe(a: Category, b: Category) {
    a.order < b.order || (a.order == b.order && a.id <= b.id)
  }

  /** `order_by('order')` on categories. */
  predicate ByOrder(a: Category, b: Category) {
    a.order <= b.order
  }

  /** `Tag.Meta.ordering = ['order', 'name']`. */
  predicate TagDefaultLe(a: Tag, b: Tag) {
    a.order < b.order || (a.order == b.order && Text.StrLe(a.name, b.name))
  }

  /** `SeriesVideo.Meta.ordering = ['episode_number']`. */
  predicate EpisodeLe(a: SeriesVideo, b: SeriesVideo) {
    a.episodeNumber <= b.episodeNumber
  }

  /** `Video.Meta.ordering = ['-created_at']` and `order_by('-created_at')`. */
  predicate NewestFirst(a: Video, b: Video) {
    a.createdAt >= b.createdAt
  }

  /** `order_by('-play_count')`. */
  predicate MostPlayedFirst(a: Video, b: Video) {
    a.playCount >= b.playCount
  }

  /** Every ordering above is a total preorder, so `SortBy` orders a table by it. */
  lemma OrderingsArePreorders()
    ensures TotalPreorder(CategoryDefaultLe) && TotalPreorder(ByOrder)
    ensures TotalPreorder(TagDefaultLe) && TotalPreorder(EpisodeLe)
    ensures TotalPreorder(NewestFirst) && TotalPreorder(MostPlayedFirst)
  {
    forall a: Tag, b: Tag ensures TagDefaultLe(a, b) || TagDefaultLe(b, a) {
      Text.StrLeTotal(a.name, b.name);
    }
    forall a: Tag, b: Tag, c: Tag | TagDefaultLe(a, b) && TagDefaultLe(b, c)
      ensures TagDefaultLe(a, c)
    {
      if a.order == b.order && b.order == c.order {
        Text.StrLeTransitive(a.name, b.name, c.name);
      }
    }
  }
}
