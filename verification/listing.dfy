/**
 * The read-only views of files/views.py: each one composes `.filter()`,
 * `.order_by()`, a page of 20 or a top-N slice over the catalog tables.
 * A view that answers HTTP 404 (`get_object_or_404`) returns `None`.
 * Numeric request parameters arrive already parsed; an absent
 * parameter, or the empty string where the view tests truthiness, is
 * `None` or "".
 */
module Listing {
  import opened Wrappers
  import opened Rows
  import opened Ordering
  import opened Models
  import Text

  /** Length of the discover channel's hot list (`[:20]`). */
  const DISCOVER_HOT: nat := 20
  /** Length of the latest and the hot list of every other channel (`[:12]`). */
  const CHANNEL_TOP: nat := 12

  /** `categories=c`: a `VideoCategory` link joins the video to category `c`. */
  predicate InCategory(db: Catalog, v: Video, c: nat) {
    VideoCategory(v.id, c) in db.videoCategories
  }

  /** `tags__id=t`. */
  predicate HasTag(db: Catalog, v: Video, t: nat) {
    VideoTag(v.id, t) in db.videoTags
  }

  /** `is_active=True` together with the filter `p`. */
  function ActiveAnd(p: Video -> bool): Video -> bool {
    (v: Video) => v.isActive && p(v)
  }

  /** `Video.objects.filter(is_active=True, <p>).order_by(<le>)`. */
  function ActiveVideos(db: Catalog, p: Video -> bool, le: (Video, Video) -> bool): (r: seq<Video>)
    ensures forall v :: v in r <==> v in db.videos && v.isActive && p(v)
    ensures multiset(r) <= multiset(db.videos)
    ensures forall v :: v in r ==> multiset(r)[v] == multiset(db.videos)[v]
  {
    var matching := Filter(db.videos, ActiveAnd(p));
    var r := SortBy(matching, le);
    assert forall v :: v in r <==> v in multiset(matching);
    r
  }

  /** Whatever the filter, a query ordered by a total preorder comes back in that order. */
  lemma ActiveVideosSorted(db: Catalog, p: Video -> bool, le: (Video, Video) -> bool)
    requires TotalPreorder(le)
    ensures SortedBy(ActiveVideos(db, p, le), le)
  {
    SortByCorrect(Filter(db.videos, ActiveAnd(p)), le);
  }

  /** The videos of category `c` that a category or channel page lists. */
  function CategoryVideos(db: Catalog, c: nat, le: (Video, Video) -> bool): (r: seq<Video>)
    ensures forall v :: v in r <==> v in db.videos && v.isActive && InCategory(db, v, c)
    ensures forall v :: v in r ==> multiset(r)[v] == multiset(db.videos)[v]
  {
    ActiveVideos(db, (v: Video) => InCategory(db, v, c), le)
  }

  /** The children of category `id` in the tree, by `parent`, among the rows that `keep` admits, by `order`. */
  function ChildCategories(db: Catalog, id: nat, keep: Category -> bool): (r: seq<Category>)
    ensures forall c :: c in r <==> c in db.categories && c.parent == Some(id) && keep(c)
    ensures forall c :: c in r ==> multiset(r)[c] == multiset(db.categories)[c]
    ensures forall i, j :: 0 <= i < j < |r| ==> r[i].order <= r[j].order
  {
    OrderedByOrder(Filter(db.categories, (c: Category) => c.parent == Some(id) && keep(c)))
  }

  /** `order_by('order')` on categories: the same rows, smallest `order` first. */
  function OrderedByOrder(s: seq<Category>): (r: seq<Category>)
    ensures forall c :: c in r <==> c in s
    ensures multiset(r) == multiset(s)
    ensures forall i, j :: 0 <= i < j < |r| ==> r[i].order <= r[j].order
  {
    var r := SortBy(s, ByOrder);
    OrderingsArePreorders();
    SortByCorrect(s, ByOrder);
    assert forall c :: c in r <==> c in multiset(s);
    r
  }

  // get_nav_context

  /** The menu: top-level categories that are active and shown in the menu, by `order`. */
  function NavCategories(db: Catalog): (r: seq<Category>)
    ensures forall c :: c in r <==> c in db.categories && c.parent.None? && c.isActive && c.showInMenu
    ensures forall c :: c in r ==> multiset(r)[c] == multiset(db.categories)[c]
    ensures forall i, j :: 0 <= i < j < |r| ==> r[i].order <= r[j].order
  {
    OrderedByOrder(Filter(db.categories, (c: Category) => c.parent.None? && c.isActive && c.showInMenu))
  }

  // video_list

  /**
   * The order a view picks from a request value: the value `byPlays` is most
   * played first, every other value newest first. `video_list` uses
   * `popular` for `byPlays`, `subcategory_list` uses `play_count`.
   */
  function ChosenOrder(choice: string, byPlays: string): (le: (Video, Video) -> bool)
    ensures TotalPreorder(le)
    ensures forall a, b :: le(a, b) == if choice == byPlays then a.playCount >= b.playCount else a.createdAt >= b.createdAt
  {
    OrderingsArePreorders();
    if choice == byPlays then MostPlayedFirst else NewestFirst
  }

  /** A video `video_list` may show: active, and linked to the category and the tag when they are given. */
  predicate ListedBy(db: Catalog, category: Option<nat>, tag: Option<nat>, v: Video) {
    && v in db.videos && v.isActive
    && (category.Some? ==> InCategory(db, v, category.value))
    && (tag.Some? ==> HasTag(db, v, tag.value))
  }

  /** The whole `video_list` result, before it is cut into pages. */
  function VideoListQuery(db: Catalog, category: Option<nat>, tag: Option<nat>, sort: string): (r: seq<Video>)
    ensures forall v :: v in r <==> ListedBy(db, category, tag, v)
    ensures forall v :: v in r ==> multiset(r)[v] == multiset(db.videos)[v]
  {
    ActiveVideos(db, (v: Video) => (category.None? || InCategory(db, v, category.value))
                       && (tag.None? || HasTag(db, v, tag.value)), ChosenOrder(sort, "popular"))
  }

  /** Page `page` of `video_list`. */
  function VideoList(db: Catalog, category: Option<nat>, tag: Option<nat>, sort: string, page: nat): (r: seq<Video>)
    requires page >= 1
    ensures |r| <= PAGE_SIZE
    ensures forall v :: v in r ==> ListedBy(db, category, tag, v)
    ensures r == Page(VideoListQuery(db, category, tag, sort), page)
  {
    Page(VideoListQuery(db, category, tag, sort), page)
  }

  /** Each page of `video_list` is ordered by play count when `sort` is `popular`, by creation time otherwise. */
  lemma VideoListOrdered(db: Catalog, category: Option<nat>, tag: Option<nat>, sort: string, page: nat)
    requires page >= 1
    ensures var r := VideoList(db, category, tag, sort, page);
      forall i, j :: 0 <= i < j < |r| ==>
        if sort == "popular" then r[i].playCount >= r[j].playCount else r[i].createdAt >= r[j].createdAt
  {
    var q := VideoListQuery(db, category, tag, sort);
    var le := ChosenOrder(sort, "popular");
    ActiveVideosSorted(db, (v: Video) => (category.None? || InCategory(db, v, category.value))
                             && (tag.None? || HasTag(db, v, tag.value)), le);
    var r := VideoList(db, category, tag, sort, page);
    forall i, j | 0 <= i < j < |r|
      ensures if sort == "popular" then r[i].playCount >= r[j].playCount else r[i].createdAt >= r[j].createdAt
    {
      assert le(q[(page - 1) * PAGE_SIZE + i], q[(page - 1) * PAGE_SIZE + j]);
    }
  }

  /** Every video `video_list` may show is on one of its pages. */
  lemma VideoListComplete(db: Catalog, category: Option<nat>, tag: Option<nat>, sort: string, v: Video)
    requires ListedBy(db, category, tag, v)
    ensures exists k :: (1 <= k <= PageCount(|VideoListQuery(db, category, tag, sort)|)
                         && v in VideoList(db, category, tag, sort, k))
  {
    var q := VideoListQuery(db, category, tag, sort);
    var i :| 0 <= i < |q| && q[i] == v;
    OnItsPage(q, i);
    assert v in VideoList(db, category, tag, sort, i / PAGE_SIZE + 1);
  }

  // search

  /** `Q(title__icontains=q) | Q(description__icontains=q)`. */
  predicate Matches(v: Video, q: string) {
    Text.IContains(v.title, q) || Text.IContains(v.description, q)
  }

  /** The whole search result: nothing for an empty query, otherwise the active matches, newest first. */
  function SearchResults(db: Catalog, q: string): (r: seq<Video>)
    ensures q == "" ==> r == []
    ensures q != "" ==> forall v :: v in r <==> v in db.videos && v.isActive && Matches(v, q)
    ensures forall v :: v in r ==> multiset(r)[v] == multiset(db.videos)[v]
  {
    if q == "" then [] else ActiveVideos(db, (v: Video) => Matches(v, q), NewestFirst)
  }

  /** The `search` view: an empty query lists nothing, on any page; otherwise page `page` of the results. */
  function Search(db: Catalog, q: string, page: nat): (r: seq<Video>)
    requires page >= 1
    ensures q == "" ==> r == []
    ensures |r| <= PAGE_SIZE
    ensures forall v :: v in r ==> v in db.videos && v.isActive && Matches(v, q)
    ensures q != "" ==> r == Page(SearchResults(db, q), page)
  {
    if q == "" then [] else Page(SearchResults(db, q), page)
  }

  /** Every active video matching a non-empty query is on one of the pages of `search`. */
  lemma SearchComplete(db: Catalog, q: string, v: Video)
    requires q != "" && v in db.videos && v.isActive && Matches(v, q)
    ensures exists k :: 1 <= k <= PageCount(|SearchResults(db, q)|) && v in Search(db, q, k)
  {
    var s := SearchResults(db, q);
    var i :| 0 <= i < |s| && s[i] == v;
    OnItsPage(s, i);
    assert v in Search(db, q, i / PAGE_SIZE + 1);
  }

  /** Search results come newest first. */
  lemma SearchNewestFirst(db: Catalog, q: string)
    ensures var r := SearchResults(db, q);
      forall i, j :: 0 <= i < j < |r| ==> r[i].createdAt >= r[j].createdAt
  {
    if q != "" {
      OrderingsArePreorders();
      ActiveVideosSorted(db, (v: Video) => Matches(v, q), NewestFirst);
    }
  }

  /** A non-empty query matches every video whose title holds it in any letter case. */
  lemma SearchFindsTitle(db: Catalog, q: string, v: Video, i: nat)
    requires q != "" && v in db.videos && v.isActive
    requires Text.OccursAt(Text.Lower(v.title), Text.Lower(q), i)
    ensures v in SearchResults(db, q)
  {
    assert Text.IContains(v.title, q);
  }

  // category_view

  datatype CategoryPage = CategoryPage(category: Category, videos: seq<Video>)

  /**
   * `category_view`: the category with the slug, active or not, and page
   * `page` of its active videos, newest first; `None` (HTTP 404) when no
   * category has that slug.
   */
  function CategoryView(db: Catalog, slug: string, page: nat): (r: Option<CategoryPage>)
    requires page >= 1
    ensures r.None? <==> forall c :: c in db.categories ==> c.slug != slug
    ensures r.Some? ==> r.value.category in db.categories && r.value.category.slug == slug
    ensures r.Some? ==> |r.value.videos| <= PAGE_SIZE
    ensures r.Some? ==> forall v :: v in r.value.videos ==>
      v in db.videos && v.isActive && InCategory(db, v, r.value.category.id)
  {
    match Find(db.categories, (c: Category) => c.slug == slug)
    case None => None
    case Some(c) => Some(CategoryPage(c, Page(CategoryVideos(db, c.id, NewestFirst), page)))
  }

  /** With slugs unique, the category page is that of the one category with the slug. */
  lemma CategoryViewUnique(db: Catalog, slug: string, c: Category, page: nat)
    requires page >= 1
    requires Distinct(db.categories, CategorySlug)
    requires c in db.categories && c.slug == slug
    ensures CategoryView(db, slug, page) == Some(CategoryPage(c, Page(CategoryVideos(db, c.id, NewestFirst), page)))
  {
    forall d | d in db.categories && d.slug == slug ensures d == c {
      SameSlug(db, d, c);
    }
    FindOnly(db.categories, (d: Category) => d.slug == slug, c);
  }

  /** With slugs unique, two categories with the same slug are the same row. */
  lemma SameSlug(db: Catalog, a: Category, b: Category)
    requires Distinct(db.categories, CategorySlug)
    requires a in db.categories && b in db.categories && a.slug == b.slug
    ensures a == b
  {
    var i :| 0 <= i < |db.categories| && db.categories[i] == a;
    var j :| 0 <= j < |db.categories| && db.categories[j] == b;
    if i != j {
      assert false;
    }
  }

  // channel_view

  datatype ChannelPage =
    | Discover(channel: Category, subcategories: seq<Category>, selected: Option<Category>, hot: seq<Video>)
    | Channel(channel: Category, subcategories: seq<Category>, latest: seq<Video>, hot: seq<Video>)

  /** The child the discover page filters by: an active child of `channel` with slug `subSlug`, if `subSlug` is given. */
  function SelectedChild(db: Catalog, channel: nat, subSlug: string): (r: Option<Category>)
    ensures r.Some? ==> (r.value in db.categories && r.value.slug == subSlug
                         && r.value.parent == Some(channel) && r.value.isActive)
    ensures r.None? <==> subSlug == "" || forall c :: c in db.categories ==>
      !(c.slug == subSlug && c.parent == Some(channel) && c.isActive)
  {
    if subSlug == "" then None
    else Find(db.categories, (c: Category) => c.slug == subSlug && c.parent == Some(channel) && c.isActive)
  }

  /** No filter: every video passes. */
  predicate AnyVideo(v: Video) {
    true
  }

  /** `is_active=True` on categories. */
  predicate ActiveCategory(c: Category) {
    c.isActive
  }

  /** `is_active=True, show_in_menu=True` on categories. */
  predicate MenuCategory(c: Category) {
    c.isActive && c.showInMenu
  }

  /** The filter the discover page adds: none, or the selected child. */
  function DiscoverFilter(db: Catalog, selected: Option<Category>): Video -> bool {
    if selected.None? then AnyVideo
    else
      var child := selected.value.id;
      (v: Video) => InCategory(db, v, child)
  }

  /** The videos the discover page draws from: all active ones, or those of the selected child, most played first. */
  function DiscoverPool(db: Catalog, selected: Option<Category>): (r: seq<Video>)
    ensures forall v :: v in r <==> (v in db.videos && v.isActive
                                     && (selected.Some? ==> InCategory(db, v, selected.value.id)))
  {
    ActiveVideos(db, DiscoverFilter(db, selected), MostPlayedFirst)
  }

  /**
   * `channel_view`: the root category with the slug (else `None`, HTTP 404).
   * The `discover` channel lists its active children and the 20 most played
   * active videos, of the selected child only when `subSlug` names an active
   * child of the channel. Every other channel lists its active children
   * shown in the menu and its 12 newest and 12 most played active videos.
   */
  function ChannelView(db: Catalog, slug: string, subSlug: string): (r: Option<ChannelPage>)
    ensures r.None? <==> forall c :: c in db.categories ==> !(c.slug == slug && c.isRoot)
    ensures r.Some? ==> r.value.channel in db.categories && r.value.channel.slug == slug && r.value.channel.isRoot
    ensures r.Some? ==> (r.value.Discover? <==> slug == "discover")
    ensures r.Some? && r.value.Discover? ==>
      && |r.value.hot| <= DISCOVER_HOT
      && r.value.selected == SelectedChild(db, r.value.channel.id, subSlug)
      && r.value.subcategories == ActiveChildren(db, r.value.channel.id)
      && (forall c :: c in r.value.subcategories <==>
            c in db.categories && c.parent == Some(r.value.channel.id) && c.isActive)
      && (forall v :: v in r.value.hot ==> (v in db.videos && v.isActive
            && (r.value.selected.Some? ==> InCategory(db, v, r.value.selected.value.id))))
    ensures r.Some? && r.value.Channel? ==>
      && |r.value.latest| <= CHANNEL_TOP && |r.value.hot| <= CHANNEL_TOP
      && r.value.subcategories == ChildCategories(db, r.value.channel.id, MenuCategory)
      && (forall c :: c in r.value.subcategories <==>
            c in db.categories && c.parent == Some(r.value.channel.id) && c.isActive && c.showInMenu)
      && (forall v :: v in r.value.latest ==> v in db.videos && v.isActive && InCategory(db, v, r.value.channel.id))
      && (forall v :: v in r.value.hot ==> v in db.videos && v.isActive && InCategory(db, v, r.value.channel.id))
  {
    match Find(db.categories, (c: Category) => c.slug == slug && c.isRoot)
    case None => None
    case Some(channel) =>
      if slug == "discover" then Some(DiscoverPage(db, channel, subSlug)) else Some(ChannelPageOf(db, channel))
  }

  /** The `discover` branch of `channel_view`: the active children, and the 20 most played videos of the pool. */
  function DiscoverPage(db: Catalog, channel: Category, subSlug: string): (r: ChannelPage)
    ensures r.Discover? && r.channel == channel && r.subcategories == ActiveChildren(db, channel.id)
    ensures r.selected == SelectedChild(db, channel.id, subSlug)
    ensures |r.hot| <= DISCOVER_HOT
    ensures forall v :: v in r.hot ==> (v in db.videos && v.isActive
              && (r.selected.Some? ==> InCategory(db, v, r.selected.value.id)))
  {
    var selected := SelectedChild(db, channel.id, subSlug);
    var pool := DiscoverPool(db, selected);
    var hot := Take(pool, DISCOVER_HOT);
    assert forall v :: v in hot ==> v in pool;
    Discover(channel, ActiveChildren(db, channel.id), selected, hot)
  }

  /** Any other channel: the active children shown in the menu, and the 12 newest and 12 most played videos. */
  function ChannelPageOf(db: Catalog, channel: Category): (r: ChannelPage)
    ensures r.Channel? && r.channel == channel && r.subcategories == ChildCategories(db, channel.id, MenuCategory)
    ensures |r.latest| <= CHANNEL_TOP && |r.hot| <= CHANNEL_TOP
    ensures forall v :: v in r.latest ==> v in db.videos && v.isActive && InCategory(db, v, channel.id)
    ensures forall v :: v in r.hot ==> v in db.videos && v.isActive && InCategory(db, v, channel.id)
  {
    var latest := Take(CategoryVideos(db, channel.id, NewestFirst), CHANNEL_TOP);
    var hot := Take(CategoryVideos(db, channel.id, MostPlayedFirst), CHANNEL_TOP);
    assert forall v :: v in latest ==> v in CategoryVideos(db, channel.id, NewestFirst);
    assert forall v :: v in hot ==> v in CategoryVideos(db, channel.id, MostPlayedFirst);
    Channel(channel, ChildCategories(db, channel.id, MenuCategory), latest, hot)
  }

  /**
   * When the subcategory slug is absent or names no active child of the
   * discover channel, the hot list is the top 20 of all active videos.
   */
  lemma DiscoverFallback(db: Catalog, subSlug: string)
    requires ChannelView(db, "discover", subSlug).Some?
    requires subSlug == "" || forall c :: c in db.categories ==>
      !(c.slug == subSlug && c.parent == Some(ChannelView(db, "discover", subSlug).value.channel.id) && c.isActive)
    ensures ChannelView(db, "discover", subSlug).value.hot
      == Take(ActiveVideos(db, AnyVideo, MostPlayedFirst), DISCOVER_HOT)
  {
    assert ChannelView(db, "discover", subSlug).value.selected.None?;
  }

  /**
   * The discover hot list is a true top 20: the first min(20, pool size)
   * videos of the pool, ordered by play count, and no video of the pool that
   * it leaves out was played more than any it keeps.
   */
  lemma DiscoverHotIsTop(db: Catalog, subSlug: string)
    requires ChannelView(db, "discover", subSlug).Some?
    ensures var r := ChannelView(db, "discover", subSlug).value;
      var pool := DiscoverPool(db, r.selected);
      && r.hot == Take(pool, DISCOVER_HOT)
      && |r.hot| == Min(DISCOVER_HOT, |pool|)
      && SortedBy(r.hot, MostPlayedFirst)
      && (forall v, h :: v in pool && v !in r.hot && h in r.hot ==> h.playCount >= v.playCount)
  {
    var r := ChannelView(db, "discover", subSlug).value;
    var pool := DiscoverPool(db, r.selected);
    OrderingsArePreorders();
    ActiveVideosSorted(db, DiscoverFilter(db, r.selected), MostPlayedFirst);
    TopOf(pool, MostPlayedFirst, DISCOVER_HOT);
  }

  /**
   * Another channel's two lists are the top 12 of its active videos: the
   * latest by creation time, the hot ones by play count. Each is ordered,
   * as long as there are videos for it, and leaves out no video that would
   * sort before one it keeps.
   */
  lemma ChannelListsAreTop(db: Catalog, slug: string, subSlug: string)
    requires ChannelView(db, slug, subSlug).Some? && ChannelView(db, slug, subSlug).value.Channel?
    ensures var r := ChannelView(db, slug, subSlug).value;
      var byDate := CategoryVideos(db, r.channel.id, NewestFirst);
      && r.latest == Take(byDate, CHANNEL_TOP)
      && |r.latest| == Min(CHANNEL_TOP, |byDate|)
      && SortedBy(r.latest, NewestFirst)
      && (forall v, h :: v in byDate && v !in r.latest && h in r.latest ==> h.createdAt >= v.createdAt)
    ensures var r := ChannelView(db, slug, subSlug).value;
      var byPlays := CategoryVideos(db, r.channel.id, MostPlayedFirst);
      && r.hot == Take(byPlays, CHANNEL_TOP)
      && |r.hot| == Min(CHANNEL_TOP, |byPlays|)
      && SortedBy(r.hot, MostPlayedFirst)
      && (forall v, h :: v in byPlays && v !in r.hot && h in r.hot ==> h.playCount >= v.playCount)
  {
    var r := ChannelView(db, slug, subSlug).value;
    OrderingsArePreorders();
    ActiveVideosSorted(db, (v: Video) => InCategory(db, v, r.channel.id), NewestFirst);
    ActiveVideosSorted(db, (v: Video) => InCategory(db, v, r.channel.id), MostPlayedFirst);
    TopOf(CategoryVideos(db, r.channel.id, NewestFirst), NewestFirst, CHANNEL_TOP);
    TopOf(CategoryVideos(db, r.channel.id, MostPlayedFirst), MostPlayedFirst, CHANNEL_TOP);
  }

  /** The slice `[:n]` of an ordered result is ordered, and sorts no row it leaves out before a row it keeps. */
  lemma TopOf(pool: seq<Video>, le: (Video, Video) -> bool, n: nat)
    requires SortedBy(pool, le)
    ensures SortedBy(Take(pool, n), le)
    ensures forall v, h :: v in pool && v !in Take(pool, n) && h in Take(pool, n) ==> le(h, v)
  {
    if |pool| <= n {
      assert Take(pool, n) == pool;
    } else {
      assert Take(pool, n) == pool[..n];
      forall v | v in pool && v !in Take(pool, n) ensures forall h :: h in Take(pool, n) ==> le(h, v) {
        TopSliceFirst(pool, le, n, v);
      }
      SliceSorted(pool, le, 0, n);
    }
  }

  // subcategory_list

  datatype SubcategoryPage = SubcategoryPage(parent: Category, category: Category, siblings: seq<Category>, videos: seq<Video>)

  /**
   * `subcategory_list`: the root category with `catSlug`, its child with
   * `subSlug` shown in the menu (either missing: `None`, HTTP 404), the
   * other children shown in the menu, active or not, by `order`, and page
   * `page` of the child's active videos.
   */
  function SubcategoryList(db: Catalog, catSlug: string, subSlug: string, order: string, page: nat)
    : (r: Option<SubcategoryPage>)
    requires page >= 1
    ensures r.Some? ==> r.value.parent in db.categories && r.value.parent.slug == catSlug && r.value.parent.isRoot
    ensures r.Some? ==> (r.value.category in db.categories && r.value.category.slug == subSlug
                         && r.value.category.parent == Some(r.value.parent.id) && r.value.category.showInMenu)
    ensures r.Some? ==> r.value.category !in r.value.siblings
    ensures r.Some? ==> forall i, j :: 0 <= i < j < |r.value.siblings| ==>
      r.value.siblings[i].order <= r.value.siblings[j].order
    ensures r.Some? ==> forall c :: c in r.value.siblings <==>
      c in db.categories && c.parent == Some(r.value.parent.id) && c.showInMenu && c.id != r.value.category.id
    ensures r.Some? ==> |r.value.videos| <= PAGE_SIZE
    ensures r.Some? ==> forall v :: v in r.value.videos ==>
      v in db.videos && v.isActive && InCategory(db, v, r.value.category.id)
    ensures (forall c :: c in db.categories ==> !(c.slug == catSlug && c.isRoot)) ==> r.None?
  {
    match Find(db.categories, (c: Category) => c.slug == catSlug && c.isRoot)
    case None => None
    case Some(parent) =>
      match Find(db.categories, (c: Category) => c.slug == subSlug && c.parent == Some(parent.id) && c.showInMenu)
      case None => None
      case Some(sub) =>
        var siblings := ChildCategories(db, parent.id, (c: Category) => c.showInMenu && c.id != sub.id);
        Some(SubcategoryPage(parent, sub, siblings, Page(CategoryVideos(db, sub.id, ChosenOrder(order, "play_count")), page)))
  }

  /** `sub` is a child shown in the menu, with slug `subSlug`, of the root `parent` with slug `catSlug`. */
  predicate IsSubcategory(db: Catalog, catSlug: string, subSlug: string, parent: Category, sub: Category) {
    && parent in db.categories && parent.slug == catSlug && parent.isRoot
    && sub in db.categories && sub.slug == subSlug && sub.parent == Some(parent.id) && sub.showInMenu
  }

  /**
   * With slugs unique, `subcategory_list` shows the one matching pair: that
   * root, that child and page `page` of the child's active videos in the
   * requested order.
   */
  lemma SubcategoryListUnique(db: Catalog, catSlug: string, subSlug: string, order: string, page: nat,
                              parent: Category, sub: Category)
    requires page >= 1
    requires Distinct(db.categories, CategorySlug)
    requires IsSubcategory(db, catSlug, subSlug, parent, sub)
    ensures var r := SubcategoryList(db, catSlug, subSlug, order, page);
      && r.Some? && r.value.parent == parent && r.value.category == sub
      && r.value.videos == Page(CategoryVideos(db, sub.id, ChosenOrder(order, "play_count")), page)
  {
    forall d | d in db.categories && d.slug == catSlug && d.isRoot ensures d == parent {
      SameSlug(db, d, parent);
    }
    FindOnly(db.categories, (c: Category) => c.slug == catSlug && c.isRoot, parent);
    forall d | d in db.categories && d.slug == subSlug && d.parent == Some(parent.id) && d.showInMenu ensures d == sub {
      SameSlug(db, d, sub);
    }
    FindOnly(db.categories, (c: Category) => c.slug == subSlug && c.parent == Some(parent.id) && c.showInMenu, sub);
  }

  /** With slugs unique, `subcategory_list` answers 404 exactly when no root with `catSlug` has such a child. */
  lemma SubcategoryListNotFound(db: Catalog, catSlug: string, subSlug: string, order: string, page: nat)
    requires page >= 1
    requires Distinct(db.categories, CategorySlug)
    ensures SubcategoryList(db, catSlug, subSlug, order, page).None? <==>
      forall parent, sub :: !IsSubcategory(db, catSlug, subSlug, parent, sub)
  {
    var r := SubcategoryList(db, catSlug, subSlug, order, page);
    if r.Some? {
      assert IsSubcategory(db, catSlug, subSlug, r.value.parent, r.value.category);
    } else if exists parent, sub :: IsSubcategory(db, catSlug, subSlug, parent, sub) {
      var parent, sub :| IsSubcategory(db, catSlug, subSlug, parent, sub);
      SubcategoryListUnique(db, catSlug, subSlug, order, page, parent, sub);
    }
  }

  /** Each page of `subcategory_list` is ordered by play count for `play_count`, by creation time otherwise. */
  lemma SubcategoryListOrdered(db: Catalog, catSlug: string, subSlug: string, order: string, page: nat)
    requires page >= 1
    requires SubcategoryList(db, catSlug, subSlug, order, page).Some?
    ensures var r := SubcategoryList(db, catSlug, subSlug, order, page).value.videos;
      forall i, j :: 0 <= i < j < |r| ==>
        if order == "play_count" then r[i].playCount >= r[j].playCount else r[i].createdAt >= r[j].createdAt
  {
    var p := SubcategoryList(db, catSlug, subSlug, order, page).value;
    var le := ChosenOrder(order, "play_count");
    var all := CategoryVideos(db, p.category.id, le);
    ActiveVideosSorted(db, (v: Video) => InCategory(db, v, p.category.id), le);
    assert p.videos == Page(all, page);
    forall i, j | 0 <= i < j < |p.videos|
      ensures le(p.videos[i], p.videos[j])
    {
      assert le(all[(page - 1) * PAGE_SIZE + i], all[(page - 1) * PAGE_SIZE + j]);
    }
  }

  // video_detail

  /** `video_detail`: the active video with that id, or `None` (HTTP 404) for a missing or inactive one. */
  function VideoDetail(db: Catalog, id: nat): (r: Option<Video>)
    ensures r.Some? ==> r.value in db.videos && r.value.id == id && r.value.isActive
    ensures r.None? <==> forall v :: v in db.videos ==> !(v.id == id && v.isActive)
  {
    Find(db.videos, (v: Video) => v.id == id && v.isActive)
  }

  // get_category_children and get_categories

  /** `{'id': ..., 'name': ...}` of a category. */
  datatype CategoryRef = CategoryRef(id: nat, name: string)

  /** One entry of `get_categories`: a root and its active children. */
  datatype CategoryNode = CategoryNode(id: nat, name: string, children: seq<CategoryRef>)

  /** The entry `get_categories` builds for root `c`. */
  function Node(db: Catalog, c: Category): CategoryNode {
    CategoryNode(c.id, c.name, Refs(ActiveChildren(db, c.id)))
  }

  function RefOf(c: Category): CategoryRef {
    CategoryRef(c.id, c.name)
  }

  /** The list comprehension `[{'id': c.id, 'name': c.name} for c in cs]`. */
  function Refs(cs: seq<Category>): (r: seq<CategoryRef>)
    ensures |r| == |cs|
    ensures forall i :: 0 <= i < |cs| ==> r[i] == RefOf(cs[i])
  {
    if cs == [] then [] else [RefOf(cs[0])] + Refs(cs[1..])
  }

  /** `category.children.filter(is_active=True).order_by('order')`. */
  function ActiveChildren(db: Catalog, id: nat): (r: seq<Category>)
    ensures forall c :: c in r <==> c in db.categories && c.parent == Some(id) && c.isActive
    ensures forall c :: c in r ==> multiset(r)[c] == multiset(db.categories)[c]
    ensures forall i, j :: 0 <= i < j < |r| ==> r[i].order <= r[j].order
  {
    ChildCategories(db, id, ActiveCategory)
  }

  /** `ref` is the entry of an active child of category `id`. */
  ghost predicate IsChildRef(db: Catalog, id: nat, ref: CategoryRef) {
    exists c :: c in db.categories && c.parent == Some(id) && c.isActive && ref == RefOf(c)
  }

  /**
   * `get_category_children`: an empty list when no category has the id,
   * otherwise the id and name of each active child, by `order`.
   */
  function CategoryChildren(db: Catalog, id: nat): (r: seq<CategoryRef>)
    ensures (forall c :: c in db.categories ==> c.id != id) ==> r == []
    ensures forall i :: 0 <= i < |r| ==> IsChildRef(db, id, r[i])
  {
    match Find(db.categories, HasId(id))
    case None => []
    case Some(_) =>
      var children := ActiveChildren(db, id);
      ChildRefs(db, id, children);
      Refs(children)
  }

  /** Each entry of the comprehension over the active children is the entry of one of them. */
  lemma ChildRefs(db: Catalog, id: nat, children: seq<Category>)
    requires forall c :: c in children ==> c in db.categories && c.parent == Some(id) && c.isActive
    ensures forall i :: 0 <= i < |Refs(children)| ==> IsChildRef(db, id, Refs(children)[i])
  {
    forall i | 0 <= i < |Refs(children)| ensures IsChildRef(db, id, Refs(children)[i]) {
      var c := children[i];
      assert c in children;
      assert Refs(children)[i] == RefOf(c);
    }
  }

  /** The filter `id=id`. */
  function HasId(id: nat): Category -> bool {
    (c: Category) => c.id == id
  }

  /** For a known id, every active child is listed, once per row, in `order`. */
  lemma CategoryChildrenComplete(db: Catalog, id: nat, c: Category)
    requires c in db.categories && c.id == id
    ensures CategoryChildren(db, id) == Refs(ActiveChildren(db, id))
    ensures forall d :: d in db.categories && d.parent == Some(id) && d.isActive ==> RefOf(d) in CategoryChildren(db, id)
  {
    assert HasId(id)(c);
    var children := ActiveChildren(db, id);
    forall d | d in children ensures RefOf(d) in Refs(children) {
      RefsContains(children, d);
    }
  }

  /** Every listed category has its entry in the list comprehension. */
  lemma RefsContains(cs: seq<Category>, d: Category)
    requires d in cs
    ensures RefOf(d) in Refs(cs)
  {
    var i :| 0 <= i < |cs| && cs[i] == d;
    assert Refs(cs)[i] == RefOf(d);
  }

  /** The roots `get_categories` lists: active, without parent, of the requested type when one is given, by `order`. */
  function Roots(db: Catalog, categoryType: string): (r: seq<Category>)
    ensures forall c :: c in r <==> (c in db.categories && c.isActive && c.parent.None?
                                     && (categoryType != "" ==> c.categoryType == Some(categoryType)))
    ensures forall c :: c in r ==> multiset(r)[c] == multiset(db.categories)[c]
    ensures forall i, j :: 0 <= i < j < |r| ==> r[i].order <= r[j].order
  {
    var matching := Filter(db.categories,
      (c: Category) => c.isActive && (categoryType == "" || c.categoryType == Some(categoryType)) && c.parent.None?);
    OrderedByOrder(matching)
  }

  /**
   * `get_categories`: builds, root by root, the list of roots with their
   * active children. `categoryType` is "" when the URL gives none; the
   * type filter applies to the roots only.
   */
  method GetCategories(db: Catalog, categoryType: string) returns (result: seq<CategoryNode>)
    ensures |result| == |Roots(db, categoryType)|
    ensures forall i :: 0 <= i < |result| ==> result[i] == Node(db, Roots(db, categoryType)[i])
  {
    result := BuildTree(db, Roots(db, categoryType));
  }

  /** The loop of `get_categories`: one entry per root, in the order of `roots`. */
  method BuildTree(db: Catalog, roots: seq<Category>) returns (result: seq<CategoryNode>)
    ensures |result| == |roots|
    ensures forall i :: 0 <= i < |result| ==> result[i] == Node(db, roots[i])
  {
    result := [];
    for i := 0 to |roots|
      invariant |result| == i
      invariant forall j :: 0 <= j < i ==> result[j] == Node(db, roots[j])
    {
      result := result + [Node(db, roots[i])];
    }
  }
}
