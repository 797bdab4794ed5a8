/**
 * The two upload handlers of files/views.py: `publish_content` (a text
 * post with image or video attachments) and `publish_video` (one short
 * video). Each checks its form in a fixed order and answers 400 with the
 * first failing check's message; otherwise it creates the video, links it
 * to the category and stores the uploads.
 *
 * As written, both handlers build the rows with keyword arguments the
 * models do not declare (`user=` on `Video`, `video=` and `file=` on
 * `VideoMedia`), so every request that passes the first checks ends in the
 * 500 answer. `PublishContentAsWritten` and `PublishVideoAsWritten` model
 * that; `PublishContent` and `PublishVideo` model the evident intent
 * (`created_by`, `file_path`, and the `media_files` link).
 */
module Publish {
  import opened Wrappers
  import opened Rows
  import opened Models
  import opened Store

  const MB: int := 1024 * 1024
  /** Largest attachment `publish_content` takes. */
  const CONTENT_FILE_LIMIT: int := 100 * MB
  /** Largest upload `publish_video` takes. */
  const VIDEO_FILE_LIMIT: int := 500 * MB
  /** `content[:50]` becomes the post's title. */
  const TITLE_LENGTH: nat := 50

  const IMAGE_PREFIX: string := "image/"
  const VIDEO_PREFIX: string := "video/"

  const MSG_CONTENT_EMPTY: string := "内容和文件不能为空"
  const MSG_NO_CATEGORY: string := "分类不存在"
  const MSG_FILE_TOO_LARGE: string := "文件大小不能超过100MB"
  const MSG_FILE_TYPE: string := "仅支持图片和视频文件"
  const MSG_VIDEO_EMPTY: string := "标题和视频文件不能为空"
  const MSG_VIDEO_TOO_LARGE: string := "视频大小不能超过500MB"
  const MSG_VIDEO_TYPE: string := "仅支持视频文件"
  const MSG_PUBLISHED: string := "发布成功"
  const MSG_PUBLISH_FAILED: string := "发布失败，请稍后重试"

  /** An uploaded file as the handlers see it: its name, its size in bytes and its declared content type. */
  datatype Upload = Upload(name: string, size: int, contentType: string)

  /** The JSON answer: 200 with the new video's id, 400 with the reason, or 500. */
  datatype Response =
    | Ok(message: string, videoId: nat)
    | BadRequest(message: string)
    | ServerError(message: string)

  /** `Category.objects.get(id=category_id)` finds a row; an absent or negative id finds none. */
  predicate CategoryKnown(categories: seq<Category>, id: Option<int>) {
    id.Some? && id.value >= 0 && KeyTaken(categories, CategoryId, id.value as nat)
  }

  /** The attachment checks of `publish_content`, size first, then the type. */
  function FileProblem(f: Upload): (m: Option<string>)
    ensures m.None? <==> f.size <= CONTENT_FILE_LIMIT && (IMAGE_PREFIX <= f.contentType || VIDEO_PREFIX <= f.contentType)
    ensures f.size > CONTENT_FILE_LIMIT ==> m == Some(MSG_FILE_TOO_LARGE)
    ensures f.size <= CONTENT_FILE_LIMIT && !(IMAGE_PREFIX <= f.contentType || VIDEO_PREFIX <= f.contentType)
      ==> m == Some(MSG_FILE_TYPE)
    ensures m.Some? ==> m.value == MSG_FILE_TOO_LARGE || m.value == MSG_FILE_TYPE
  {
    if f.size > CONTENT_FILE_LIMIT then Some(MSG_FILE_TOO_LARGE)
    else if !(IMAGE_PREFIX <= f.contentType || VIDEO_PREFIX <= f.contentType) then Some(MSG_FILE_TYPE)
    else None
  }

  /** The index of the first attachment the loop rejects, if any. */
  function FirstBadFile(files: seq<Upload>): (k: Option<nat>)
    ensures k.None? <==> forall i :: 0 <= i < |files| ==> FileProblem(files[i]).None?
    ensures k.Some? ==> k.value < |files| && FileProblem(files[k.value]).Some?
    ensures k.Some? ==> forall i :: 0 <= i < k.value ==> FileProblem(files[i]).None?
  {
    if files == [] then None
    else if FileProblem(files[0]).Some? then Some(0)
    else
      match FirstBadFile(files[1..])
      case None => None
      case Some(j) => Some(j + 1)
  }

  /** The `media_type` of a stored attachment: `image` for an image type, `video` otherwise. */
  function MediaTypeOf(f: Upload): (t: string)
    ensures t == "image" <==> IMAGE_PREFIX <= f.contentType
    ensures FileProblem(f).None? ==> (t == "video" <==> VIDEO_PREFIX <= f.contentType)
  {
    if IMAGE_PREFIX <= f.contentType then
      assert !(VIDEO_PREFIX <= f.contentType) by {
        assert f.contentType[0] == IMAGE_PREFIX[0] != VIDEO_PREFIX[0];
      }
      "image"
    else "video"
  }

  /** The row an upload becomes once saved under key `id`. */
  function Uploaded(id: nat, f: Upload, mediaType: string): (m: VideoMedia)
    ensures m.id == id && m.mediaType == mediaType && m.filePath != ""
    ensures f.name != "" ==> m.filePath == f.name
  {
    WithDefaultPath(NewMedia(f.name, mediaType).(id := id))
  }

  /** The checks `publish_content` makes before it writes anything: something to post, then the category. */
  function ContentRequestProblem(categories: seq<Category>, content: string, categoryId: Option<int>, files: seq<Upload>)
    : (m: Option<string>)
    ensures m.None? <==> content != "" && files != [] && CategoryKnown(categories, categoryId)
    ensures (content == "" || files == []) ==> m == Some(MSG_CONTENT_EMPTY)
    ensures m == Some(MSG_NO_CATEGORY) <==> content != "" && files != [] && !CategoryKnown(categories, categoryId)
  {
    if content == "" || files == [] then Some(MSG_CONTENT_EMPTY)
    else if !CategoryKnown(categories, categoryId) then Some(MSG_NO_CATEGORY)
    else None
  }

  /** The file checks of `publish_video`, size first, then the type. */
  function VideoFileProblem(f: Upload): (m: Option<string>)
    ensures m.None? <==> f.size <= VIDEO_FILE_LIMIT && VIDEO_PREFIX <= f.contentType
    ensures f.size > VIDEO_FILE_LIMIT ==> m == Some(MSG_VIDEO_TOO_LARGE)
    ensures f.size <= VIDEO_FILE_LIMIT && !(VIDEO_PREFIX <= f.contentType) ==> m == Some(MSG_VIDEO_TYPE)
  {
    if f.size > VIDEO_FILE_LIMIT then Some(MSG_VIDEO_TOO_LARGE)
    else if !(VIDEO_PREFIX <= f.contentType) then Some(MSG_VIDEO_TYPE)
    else None
  }

  /** Every check of `publish_video`, in its order: title and file present, category, then the file. */
  function VideoRequestProblem(categories: seq<Category>, title: Option<string>, categoryId: Option<int>, file: Option<Upload>)
    : (m: Option<string>)
    ensures m.None? <==>
      && title.Some? && title.value != "" && file.Some?
      && CategoryKnown(categories, categoryId) && VideoFileProblem(file.value).None?
    ensures (title.None? || title == Some("") || file.None?) ==> m == Some(MSG_VIDEO_EMPTY)
    ensures m == Some(MSG_NO_CATEGORY) <==>
      title.Some? && title.value != "" && file.Some? && !CategoryKnown(categories, categoryId)
    ensures title.Some? && title.value != "" && file.Some? && CategoryKnown(categories, categoryId)
      ==> m == VideoFileProblem(file.value)
  {
    if title.None? || title.value == "" || file.None? then Some(MSG_VIDEO_EMPTY)
    else if !CategoryKnown(categories, categoryId) then Some(MSG_NO_CATEGORY)
    else VideoFileProblem(file.value)
  }

  /** The post `publish_content` creates: the first characters of the text as title, the whole text as description. */
  function ContentVideo(id: nat, content: string, now: int, user: nat): (v: Video)
    ensures v.title == Take(content, TITLE_LENGTH) && v.description == content
    ensures |v.title| <= TITLE_LENGTH && v.title <= content
    ensures v.isActive && v.videoType == Single && v.status == Draft && v.createdBy == user
  {
    NewVideo(id, Take(content, TITLE_LENGTH), content, now, user)
  }

  /** The video `publish_video` creates: a short video with the given title and description. */
  function ShortVideo(id: nat, title: string, description: string, now: int, user: nat): (v: Video)
    ensures v.title == title && v.description == description
    ensures v.isActive && v.videoType == Short && v.status == Draft && v.createdBy == user
  {
    NewVideo(id, title, description, now, user).(videoType := Short)
  }

  /**
   * `publish_content` as written: the checks before the first write answer
   * as intended, and then `Video.objects.create(..., user=...)` raises
   * because `Video` has no `user` field, so the handler answers 500 and
   * nothing is stored.
   */
  function PublishContentAsWritten(categories: seq<Category>, content: string, categoryId: Option<int>, files: seq<Upload>)
    : (resp: Response)
    ensures !resp.Ok?
    ensures resp.BadRequest? <==> ContentRequestProblem(categories, content, categoryId, files).Some?
    ensures resp.BadRequest? ==> resp.message == ContentRequestProblem(categories, content, categoryId, files).value
    ensures !resp.BadRequest? ==> resp == ServerError(MSG_PUBLISH_FAILED)
  {
    match ContentRequestProblem(categories, content, categoryId, files)
    case Some(m) => BadRequest(m)
    case None => ServerError(MSG_PUBLISH_FAILED)
  }

  /**
   * `publish_video` as written: all four checks answer as intended, and
   * then the `user=` keyword makes `Video.objects.create` raise, so a
   * request that passes them gets the 500 answer and nothing is stored.
   */
  function PublishVideoAsWritten(categories: seq<Category>, title: Option<string>, categoryId: Option<int>, file: Option<Upload>)
    : (resp: Response)
    ensures !resp.Ok?
    ensures resp.BadRequest? <==> VideoRequestProblem(categories, title, categoryId, file).Some?
    ensures resp.BadRequest? ==> resp.message == VideoRequestProblem(categories, title, categoryId, file).value
    ensures !resp.BadRequest? ==> resp == ServerError(MSG_PUBLISH_FAILED)
  {
    match VideoRequestProblem(categories, title, categoryId, file)
    case Some(m) => BadRequest(m)
    case None => ServerError(MSG_PUBLISH_FAILED)
  }

  /** A catalog holding one category, with id 1. */
  function OneCategory(): seq<Category> {
    [Category(1, "电影", "movie", "", None, "video", None, true, true, 0, true)]
  }

  /**
   * A well-formed post (text, a known category and one 1 MB video) is
   * answered 500 by the handler as written, and an oversized attachment is
   * answered 500 as well instead of the 400 its size check intends.
   */
  lemma PublishContentAsWrittenFails()
    ensures ContentRequestProblem(OneCategory(), "hello", Some(1), [Upload("clip.mp4", MB, "video/mp4")]).None?
    ensures FirstBadFile([Upload("clip.mp4", MB, "video/mp4")]).None?
    ensures PublishContentAsWritten(OneCategory(), "hello", Some(1), [Upload("clip.mp4", MB, "video/mp4")])
      == ServerError(MSG_PUBLISH_FAILED)
    ensures FileProblem(Upload("big.mp4", 200 * MB, "video/mp4")) == Some(MSG_FILE_TOO_LARGE)
    ensures PublishContentAsWritten(OneCategory(), "hello", Some(1), [Upload("big.mp4", 200 * MB, "video/mp4")])
      == ServerError(MSG_PUBLISH_FAILED)
  {
    assert KeyTaken(OneCategory(), CategoryId, 1) by {
      assert CategoryId(OneCategory()[0]) == 1;
    }
    assert "video/" <= "video/mp4";
  }

  /** A valid short-video upload is answered 500 by the handler as written. */
  lemma PublishVideoAsWrittenFails()
    ensures VideoRequestProblem(OneCategory(), Some("trailer"), Some(1), Some(Upload("trailer.mp4", MB, "video/mp4"))).None?
    ensures PublishVideoAsWritten(OneCategory(), Some("trailer"), Some(1), Some(Upload("trailer.mp4", MB, "video/mp4")))
      == ServerError(MSG_PUBLISH_FAILED)
  {
    assert KeyTaken(OneCategory(), CategoryId, 1) by {
      assert CategoryId(OneCategory()[0]) == 1;
    }
    assert "video/" <= "video/mp4";
  }

  /**
   * `publish_video` as intended: the checks in order, each failure a 400
   * with nothing written; then the short video, its category link, the
   * stored file and its link to the video, and a 200 with the new id. It
   * rejects exactly the requests the handler as written rejects.
   */
  method PublishVideo(store: CatalogStore, title: Option<string>, description: string, categoryId: Option<int>,
                      file: Option<Upload>, user: nat, now: int) returns (resp: Response)
    requires store.ValidVideos() && store.ValidMedia() && store.ValidJunctions() && store.ValidLinks()
    modifies store`videos, store`nextVideoId, store`videoCategories, store`media, store`nextMediaId, store`mediaLinks
    ensures store.ValidVideos() && store.ValidMedia() && store.ValidJunctions() && store.ValidLinks()
    ensures !resp.ServerError?
    ensures resp.BadRequest? <==> PublishVideoAsWritten(store.categories, title, categoryId, file).BadRequest?
    ensures resp.BadRequest? ==>
      && resp == PublishVideoAsWritten(store.categories, title, categoryId, file)
      && store.videos == old(store.videos) && store.videoCategories == old(store.videoCategories)
      && store.media == old(store.media) && store.mediaLinks == old(store.mediaLinks)
    ensures resp.Ok? ==>
      && resp.message == MSG_PUBLISHED
      && !KeyTaken(old(store.videos), VideoId, resp.videoId)
      && store.videos == old(store.videos) + [ShortVideo(resp.videoId, title.value, description, now, user)]
      && VideoCategory(resp.videoId, categoryId.value as nat) in store.videoCategories
      && store.videoCategories == old(store.videoCategories) + [VideoCategory(resp.videoId, categoryId.value as nat)]
      && |store.media| == |old(store.media)| + 1
      && var m := store.media[|old(store.media)|];
      && store.media == old(store.media) + [Uploaded(m.id, file.value, "video")]
      && !KeyTaken(old(store.media), MediaId, m.id)
      && MediaLink(resp.videoId, m.id) in store.mediaLinks
      && store.mediaLinks == old(store.mediaLinks) + [MediaLink(resp.videoId, m.id)]
  {
    var problem := VideoRequestProblem(store.categories, title, categoryId, file);
    if problem.Some? {
      return BadRequest(problem.value);
    }
    var id := StoreShortVideo(store, title.value, description, categoryId.value as nat, file.value, user, now);
    resp := Ok(MSG_PUBLISHED, id);
  }

  /** The writes of `publish_video` once its checks pass: the short video, its category link, the file and its link. */
  method StoreShortVideo(store: CatalogStore, title: string, description: string, category: nat, file: Upload,
                         user: nat, now: int) returns (id: nat)
    requires store.ValidVideos() && store.ValidMedia() && store.ValidJunctions() && store.ValidLinks()
    modifies store`videos, store`nextVideoId, store`videoCategories, store`media, store`nextMediaId, store`mediaLinks
    ensures store.ValidVideos() && store.ValidMedia() && store.ValidJunctions() && store.ValidLinks()
    ensures !KeyTaken(old(store.videos), VideoId, id)
    ensures store.videos == old(store.videos) + [ShortVideo(id, title, description, now, user)]
    ensures store.videoCategories == old(store.videoCategories) + [VideoCategory(id, category)]
    ensures |store.media| == |old(store.media)| + 1
    ensures var m := store.media[|old(store.media)|];
      && store.media == old(store.media) + [Uploaded(m.id, file, "video")]
      && !KeyTaken(old(store.media), MediaId, m.id)
      && store.mediaLinks == old(store.mediaLinks) + [MediaLink(id, m.id)]
  {
    id := CreateVideoIn(store, ShortVideo(0, title, description, now, user), category);
    var m := StoreOne(store, id, file, "video");
  }

  /** `Video.objects.create(...)` followed by `video.categories.add(category)`. */
  method CreateVideoIn(store: CatalogStore, v: Video, category: nat) returns (id: nat)
    requires store.ValidVideos() && store.ValidJunctions() && store.ValidLinks()
    modifies store`videos, store`nextVideoId, store`videoCategories
    ensures store.ValidVideos() && store.ValidJunctions() && store.ValidLinks()
    ensures !KeyTaken(old(store.videos), VideoId, id) && id < store.nextVideoId
    ensures store.videos == old(store.videos) + [v.(id := id)]
    ensures VideoCategory(id, category) in store.videoCategories
    ensures store.videoCategories == old(store.videoCategories) + [VideoCategory(id, category)]
  {
    id := store.CreateVideo(v);
    store.AttachCategory(id, category);
  }

  /** `added` are the rows stored for the first `|added|` attachments, in order. */
  ghost predicate StoredUploads(added: seq<VideoMedia>, files: seq<Upload>) {
    && |added| <= |files|
    && forall i :: 0 <= i < |added| ==> added[i] == Uploaded(added[i].id, files[i], MediaTypeOf(files[i]))
  }

  /** The `media_files` links from `video` to each of `rows`, in order. */
  function LinksTo(video: nat, rows: seq<VideoMedia>): seq<MediaLink>
  {
    seq(|rows|, i requires 0 <= i < |rows| => MediaLink(video, rows[i].id))
  }

  /**
   * `publish_content` as intended: the two checks before any write (each a
   * 400 with nothing written); then the post and its category link; then
   * the attachments in order, each checked and stored with its link. The
   * first rejected attachment ends the request with its 400, keeping the
   * post and the attachments stored before it; with none rejected the
   * answer is a 200 with the post's id.
   */
  method PublishContent(store: CatalogStore, content: string, categoryId: Option<int>, files: seq<Upload>,
                        user: nat, now: int) returns (resp: Response)
    requires store.ValidVideos() && store.ValidMedia() && store.ValidJunctions() && store.ValidLinks()
    modifies store`videos, store`nextVideoId, store`videoCategories, store`media, store`nextMediaId, store`mediaLinks
    ensures store.ValidVideos() && store.ValidMedia() && store.ValidJunctions() && store.ValidLinks()
    ensures !resp.ServerError?
    ensures ContentRequestProblem(store.categories, content, categoryId, files).Some? ==>
      && resp == PublishContentAsWritten(store.categories, content, categoryId, files)
      && store.videos == old(store.videos) && store.videoCategories == old(store.videoCategories)
      && store.media == old(store.media) && store.mediaLinks == old(store.mediaLinks)
    ensures ContentRequestProblem(store.categories, content, categoryId, files).None? ==>
      && |store.videos| == |old(store.videos)| + 1
      && var id := store.videos[|old(store.videos)|].id;
      && !KeyTaken(old(store.videos), VideoId, id)
      && store.videos == old(store.videos) + [ContentVideo(id, content, now, user)]
      && VideoCategory(id, categoryId.value as nat) in store.videoCategories
      && store.videoCategories == old(store.videoCategories) + [VideoCategory(id, categoryId.value as nat)]
      && old(store.media) <= store.media
      && StoredUploads(store.media[|old(store.media)|..], files)
      && store.mediaLinks == old(store.mediaLinks) + LinksTo(id, store.media[|old(store.media)|..])
      && match FirstBadFile(files)
         case None => resp == Ok(MSG_PUBLISHED, id) && |store.media| == |old(store.media)| + |files|
         case Some(k) => resp == BadRequest(FileProblem(files[k]).value) && |store.media| == |old(store.media)| + k
  {
    var problem := ContentRequestProblem(store.categories, content, categoryId, files);
    if problem.Some? {
      return BadRequest(problem.value);
    }
    resp := CreatePost(store, content, categoryId.value as nat, files, user, now);
  }

  /** The writes of `publish_content` once its first checks pass: the post, its category link, then the attachments. */
  method CreatePost(store: CatalogStore, content: string, category: nat, files: seq<Upload>, user: nat, now: int)
    returns (resp: Response)
    requires store.ValidVideos() && store.ValidMedia() && store.ValidJunctions() && store.ValidLinks()
    modifies store`videos, store`nextVideoId, store`videoCategories, store`media, store`nextMediaId, store`mediaLinks
    ensures store.ValidVideos() && store.ValidMedia() && store.ValidJunctions() && store.ValidLinks()
    ensures |store.videos| == |old(store.videos)| + 1
    ensures var id := store.videos[|old(store.videos)|].id;
      && !KeyTaken(old(store.videos), VideoId, id)
      && store.videos == old(store.videos) + [ContentVideo(id, content, now, user)]
      && VideoCategory(id, category) in store.videoCategories
      && store.videoCategories == old(store.videoCategories) + [VideoCategory(id, category)]
      && old(store.media) <= store.media
      && StoredUploads(store.media[|old(store.media)|..], files)
      && store.mediaLinks == old(store.mediaLinks) + LinksTo(id, store.media[|old(store.media)|..])
      && match FirstBadFile(files)
         case None => resp == Ok(MSG_PUBLISHED, id) && |store.media| == |old(store.media)| + |files|
         case Some(k) => resp == BadRequest(FileProblem(files[k]).value) && |store.media| == |old(store.media)| + k
  {
    var id := CreateVideoIn(store, ContentVideo(0, content, now, user), category);
    var stored := StoreAttachments(store, id, files);
    resp := if stored.None? then Ok(MSG_PUBLISHED, id) else BadRequest(stored.value);
  }

  /** The attachment loop of `publish_content`: check, store and link each file in turn, stopping at the first rejected one. */
  method StoreAttachments(store: CatalogStore, video: nat, files: seq<Upload>) returns (problem: Option<string>)
    requires store.ValidMedia() && store.ValidLinks()
    requires video < store.nextVideoId
    modifies store`media, store`nextMediaId, store`mediaLinks
    ensures store.ValidMedia() && store.ValidLinks()
    ensures old(store.media) <= store.media
    ensures StoredUploads(store.media[|old(store.media)|..], files)
    ensures store.mediaLinks == old(store.mediaLinks) + LinksTo(video, store.media[|old(store.media)|..])
    ensures match FirstBadFile(files)
      case None => problem.None? && |store.media| == |old(store.media)| + |files|
      case Some(k) => problem == FileProblem(files[k]) && |store.media| == |old(store.media)| + k
  {
    ghost var start := store.media;
    ghost var linksStart := store.mediaLinks;
    ghost var added: seq<VideoMedia> := [];
    for i := 0 to |files|
      invariant store.ValidMedia() && store.ValidLinks()
      invariant store.media == start + added && |added| == i
      invariant forall j :: 0 <= j < i ==> FileProblem(files[j]).None?
      invariant StoredUploads(added, files)
      invariant store.mediaLinks == linksStart + LinksTo(video, added)
    {
      var p := FileProblem(files[i]);
      if p.Some? {
        FirstBadIs(files, i);
        AppendSuffix(start, added);
        return p;
      }
      var m := StoreOne(store, video, files[i], MediaTypeOf(files[i]));
      StoredOneMore(added, files, i, m);
      LinksToAppend(linksStart, video, added, m);
      AppendAssoc(start, added, [m]);
      added := added + [m];
    }
    AppendSuffix(start, added);
    problem := None;
  }

  /** The first attachment with a problem is the one `FirstBadFile` names. */
  lemma {:induction false} FirstBadIs(files: seq<Upload>, i: nat)
    requires i < |files| && FileProblem(files[i]).Some?
    requires forall j :: 0 <= j < i ==> FileProblem(files[j]).None?
    ensures FirstBadFile(files) == Some(i)
  {
    if i > 0 {
      assert FileProblem(files[0]).None?;
      var rest := files[1..];
      assert rest[i - 1] == files[i];
      assert forall j :: 0 <= j < i - 1 ==> rest[j] == files[j + 1];
      FirstBadIs(rest, i - 1);
    }
  }

  /** Stores one accepted attachment and links it to `video`. */
  method StoreOne(store: CatalogStore, video: nat, f: Upload, mediaType: string) returns (m: VideoMedia)
    requires store.ValidMedia() && store.ValidLinks()
    requires video < store.nextVideoId
    modifies store`media, store`nextMediaId, store`mediaLinks
    ensures store.ValidMedia() && store.ValidLinks()
    ensures m == Uploaded(m.id, f, mediaType) && !KeyTaken(old(store.media), MediaId, m.id)
    ensures store.media == old(store.media) + [m]
    ensures old(store.mediaLinks) <= store.mediaLinks && MediaLink(video, m.id) in store.mediaLinks
    ensures store.mediaLinks == old(store.mediaLinks) + [MediaLink(video, m.id)]
  {
    var mediaId := store.CreateMedia(NewMedia(f.name, mediaType));
    store.LinkMedia(video, mediaId);
    m := Uploaded(mediaId, f, mediaType);
  }

  /** Storing the next attachment extends what has been stored by one row in file order. */
  lemma StoredOneMore(added: seq<VideoMedia>, files: seq<Upload>, i: nat, m: VideoMedia)
    requires |added| == i < |files|
    requires StoredUploads(added, files)
    requires m == Uploaded(m.id, files[i], MediaTypeOf(files[i]))
    ensures StoredUploads(added + [m], files)
  {
  }

  /** Linking one more row adds its link at the end. */
  lemma LinksToAppend(links: seq<MediaLink>, video: nat, rows: seq<VideoMedia>, m: VideoMedia)
    ensures links + LinksTo(video, rows + [m]) == (links + LinksTo(video, rows)) + [MediaLink(video, m.id)]
  {
    assert LinksTo(video, rows + [m]) == LinksTo(video, rows) + [MediaLink(video, m.id)];
    AppendAssoc(links, LinksTo(video, rows), [MediaLink(video, m.id)]);
  }
}
