/**
 * The read-only operations of `BlogRepository`: single-post and single-row
 * lookups, slug checks, the most-viewed ranking and the per-category and
 * per-tag published-post counts. Each reads the tables it is given and
 * returns a value; `null` results are `None`.
 */
module BlogQueries {
  import opened Wrappers
  import opened Text
  import opened Linq
  import opened Entities
  import opened PostFilter

  // ---------------------------------------------------------------------------
  // Posts

  /**
   * `GetPostAsync(year, month, slug)`: a post posted in `year` (when positive)
   * and `month` (when positive) whose slug is `slug` (when not blank).
   */
  function GetPost(posts: seq<Post>, year: int, month: int, slug: Option<string>): (r: Option<Post>)
    ensures r.Some? ==> r.value in posts
    ensures r.Some? ==> year > 0 ==> r.value.postedDate.year == year
    ensures r.Some? ==> month > 0 ==> r.value.postedDate.month == month
    ensures r.Some? ==> !IsNullOrWhiteSpace(slug) ==> Some(r.value.urlSlug) == slug
    ensures r.None? <==> forall p :: p in posts ==>
      !((year > 0 ==> p.postedDate.year == year) && (month > 0 ==> p.postedDate.month == month)
        && (!IsNullOrWhiteSpace(slug) ==> Some(p.urlSlug) == slug))
  {
    FirstOrDefault(posts, (p: Post) =>
      && (year > 0 ==> p.postedDate.year == year)
      && (month > 0 ==> p.postedDate.month == month)
      && (!IsNullOrWhiteSpace(slug) ==> Some(p.urlSlug) == slug))
  }

  /** The query `GetPostAsync(slug)` builds: `PublishedOnly = false`, `TitleSlug = slug`. */
  function SlugQuery(slug: Option<string>): PostQuery
  {
    DefaultQuery.(publishedOnly := false, titleSlug := slug)
  }

  /** `GetPostAsync(slug)`: the first post `FilterPosts` returns for `SlugQuery(slug)`. */
  function GetPostBySlug(slug: Option<string>, posts: seq<Post>,
                         categories: seq<Category>, authors: seq<Author>, tags: seq<Tag>): Option<Post>
  {
    First(FilterPosts(SlugQuery(slug), posts, categories, authors, tags))
  }

  /** A blank slug narrows nothing: the result is the first post of the table, published or not. */
  lemma GetPostBySlugBlank(slug: Option<string>, posts: seq<Post>,
                           categories: seq<Category>, authors: seq<Author>, tags: seq<Tag>)
    requires IsNullOrWhiteSpace(slug)
    ensures GetPostBySlug(slug, posts, categories, authors, tags) == First(posts)
  {
    FilterPostsExact(SlugQuery(slug), posts, categories, authors, tags);
    MatchingAll(SlugQuery(slug), posts, categories, authors, tags);
  }

  /**
   * A slug that is not blank finds a post carrying that slug, published or
   * not, and finds nothing only when no post carries it.
   */
  lemma GetPostBySlugFinds(slug: Option<string>, posts: seq<Post>,
                           categories: seq<Category>, authors: seq<Author>, tags: seq<Tag>)
    requires !IsNullOrWhiteSpace(slug)
    ensures var r := GetPostBySlug(slug, posts, categories, authors, tags);
      && (r.Some? ==> r.value in posts && Some(r.value.urlSlug) == slug)
      && (r.None? <==> forall p :: p in posts ==> Some(p.urlSlug) != slug)
  {
    var q := SlugQuery(slug);
    FilterPostsExact(q, posts, categories, authors, tags);
    var s := FilterPosts(q, posts, categories, authors, tags);
    if forall p :: p in posts ==> Some(p.urlSlug) != slug {
      MatchingNone(q, posts, categories, authors, tags);
    } else {
      var p :| p in posts && Some(p.urlSlug) == slug;
      assert p in s;
    }
    if s != [] {
      assert s[0] in s;
    }
  }

  /** `GetPostByIdAsync`: the post with primary key `postId`. `includeDetails` only eager-loads its navigations. */
  function GetPostById(posts: seq<Post>, postId: int, includeDetails: bool): (r: Option<Post>)
    ensures r.Some? ==> r.value in posts && r.value.id == postId
    ensures r.None? <==> postId !in PostIds(posts)
  {
    if !includeDetails then FirstOrDefault(posts, (p: Post) => p.id == postId)
    else FirstOrDefault(posts, (p: Post) => p.id == postId)
  }

  /** The ordering of `OrderByDescending(p => p.ViewCount)`. */
  predicate MoreViewed(a: Post, b: Post)
  {
    a.viewCount >= b.viewCount
  }

  lemma MoreViewedTotalPreorder()
    ensures TotalPreorder(MoreViewed)
  {
  }

  /**
   * `GetPopularArticlesAsync(numPosts)`: the posts ordered by view count,
   * most viewed first, and the first `numPosts` of them; a negative count is
   * rejected by the database. The database promises no order among equal
   * view counts; the model's stable sort keeps their table order, and the
   * lemmas below do not rely on that choice.
   */
  function GetPopularArticles(posts: seq<Post>, numPosts: int): (r: Result<seq<Post>>)
    ensures r.Failure? <==> numPosts < 0
    ensures r.Failure? ==> r.error == InvalidRowCount
  {
    MoreViewedTotalPreorder();
    if numPosts < 0 then Failure(InvalidRowCount)
    else Success(Take(OrderBy(posts, MoreViewed), numPosts))
  }

  /**
   * `GetPopularArticlesAsync` fails for a negative count; otherwise it returns
   * `min(numPosts, |posts|)` posts, most viewed first, drawn from the table,
   * and no post it leaves out has more views than one it returns. Ties among
   * equal view counts may be broken either way.
   */
  lemma PopularArticlesTopN(posts: seq<Post>, numPosts: int)
    ensures numPosts < 0 ==> GetPopularArticles(posts, numPosts) == Failure(InvalidRowCount)
    ensures numPosts >= 0 ==> GetPopularArticles(posts, numPosts).Success?
    ensures numPosts >= 0 ==> var r := GetPopularArticles(posts, numPosts).value;
      && |r| == (if numPosts < |posts| then numPosts else |posts|)
      && (forall i, j :: 0 <= i < j < |r| ==> r[i].viewCount >= r[j].viewCount)
      && multiset(r) <= multiset(posts)
      && (forall p, q :: p in r && q in multiset(posts) - multiset(r) ==> q.viewCount <= p.viewCount)
  {
    if numPosts >= 0 {
      MoreViewedTotalPreorder();
      var sorted := OrderBy(posts, MoreViewed);
      var r := Take(sorted, numPosts);
      assert r == GetPopularArticles(posts, numPosts).value;
      assert |sorted| == |posts| by {
        assert |multiset(sorted)| == |multiset(posts)|;
      }
      TakeOfSorted(sorted, MoreViewed, numPosts);
      assert sorted == r + sorted[|r|..];
      assert multiset(sorted) == multiset(r) + multiset(sorted[|r|..]);
      forall i, j | 0 <= i < j < |r| ensures r[i].viewCount >= r[j].viewCount {
        assert r[i] == sorted[i] && r[j] == sorted[j];
        assert MoreViewed(sorted[i], sorted[j]);
      }
      forall p, q | p in r && q in multiset(posts) - multiset(r) ensures q.viewCount <= p.viewCount {
        assert MoreViewed(p, q);
      }
    }
  }

  /** `IsPostSlugExistedAsync(postId, slug)`: some post other than `postId` already uses `slug`. */
  function IsPostSlugExisted(posts: seq<Post>, postId: int, slug: Option<string>): (r: bool)
    ensures r <==> exists p :: p in posts && p.id != postId && Some(p.urlSlug) == slug
  {
    Any(posts, (p: Post) => p.id != postId && Some(p.urlSlug) == slug)
  }

  /**
   * A post never conflicts with itself: checking a post's own slug under its
   * own id reports a conflict exactly when another row carries that slug.
   */
  lemma PostSlugOwnIdNoConflict(posts: seq<Post>, i: nat)
    requires DistinctPostIds(posts) && i < |posts|
    ensures IsPostSlugExisted(posts, posts[i].id, Some(posts[i].urlSlug))
        <==> exists j :: 0 <= j < |posts| && j != i && posts[j].urlSlug == posts[i].urlSlug
  {
    if IsPostSlugExisted(posts, posts[i].id, Some(posts[i].urlSlug)) {
      var p :| p in posts && p.id != posts[i].id && p.urlSlug == posts[i].urlSlug;
      var j :| 0 <= j < |posts| && posts[j] == p;
    }
  }

  /** For a new post (id 0, which no stored row has) the check is "does any post use the slug". */
  lemma PostSlugCheckForNewPost(posts: seq<Post>, slug: Option<string>)
    requires 0 !in PostIds(posts)
    ensures IsPostSlugExisted(posts, 0, slug) <==> exists p :: p in posts && Some(p.urlSlug) == slug
  {
    if exists p :: p in posts && Some(p.urlSlug) == slug {
      var p :| p in posts && Some(p.urlSlug) == slug;
      assert p.id in PostIds(posts);
    }
  }

  // ---------------------------------------------------------------------------
  // Tags

  /**
   * `GetTagSlusAsync(slug)` AS WRITTEN: the `Where` it builds is discarded,
   * so it returns the first tag of the table whatever the slug.
   */
  function GetTagSlus(tags: seq<Tag>, slug: Option<string>): (r: Option<Tag>)
    ensures r.None? <==> tags == []
    ensures r.Some? ==> r.value == tags[0]
  {
    First(tags)
  }

  /** The slug is ignored: a request for one slug can return a tag with another. */
  lemma GetTagSlusReturnsWrongTag()
    ensures var t := Tag(1, ".NET Core", "net-core", ".NET Core");
      && GetTagSlus([t], Some("react")) == Some(t)
      && t.urlSlug != "react"
  {
  }

  /** `GetTagAsync(slug)`: the lookup `GetTagSlusAsync` evidently intends, with the filter applied. */
  function GetTag(tags: seq<Tag>, slug: Option<string>): (r: Option<Tag>)
    ensures r.Some? ==> r.value in tags && Some(r.value.urlSlug) == slug
    ensures r.None? <==> forall t :: t in tags ==> Some(t.urlSlug) != slug
  {
    FirstOrDefault(tags, (t: Tag) => Some(t.urlSlug) == slug)
  }

  /** `FindTagWithIdAsync(id)`: the tag with primary key `id`. */
  function FindTagWithId(tags: seq<Tag>, id: int): (r: Option<Tag>)
    ensures r.Some? ==> r.value in tags && r.value.id == id
    ensures r.None? <==> id !in TagIds(tags)
  {
    FirstOrDefault(tags, (t: Tag) => t.id == id)
  }

  /** The `TagItem` projection of `GetTagsAsync` and `GetPagedTagsAsync`. */
  function TagItemOf(t: Tag, posts: seq<Post>): TagItem
  {
    TagItem(t.id, t.name, t.urlSlug, t.description, PublishedCount(posts, OfTag(t.id)))
  }

  /** `GetTagsAsync`: every tag, in table order, with its published-post count. */
  function GetTags(tags: seq<Tag>, posts: seq<Post>): (r: seq<TagItem>)
    ensures |r| == |tags|
    ensures forall i :: 0 <= i < |r| ==> r[i] == TagItemOf(tags[i], posts)
  {
    if tags == [] then [] else [TagItemOf(tags[0], posts)] + GetTags(tags[1..], posts)
  }

  /** A tag never counts more posts than the table has published. */
  lemma {:induction false} TagCountAtMostPublished(posts: seq<Post>, tagId: int)
    ensures PublishedCount(posts, OfTag(tagId)) <= PublishedTotal(posts)
  {
    if posts != [] {
      TagCountAtMostPublished(posts[1..], tagId);
    }
  }

  // ---------------------------------------------------------------------------
  // Categories

  /** `FindCategoryWithIdAsync(id)`: the category with primary key `id`. */
  function FindCategoryWithId(categories: seq<Category>, id: int): (r: Option<Category>)
    ensures r.Some? ==> r.value in categories && r.value.id == id
    ensures r.None? <==> id !in CategoryIds(categories)
  {
    FirstOrDefault(categories, (c: Category) => c.id == id)
  }

  /** `IsCategoryExistSlugAsync(slug)`: some category has `slug`. */
  function IsCategoryExistSlug(categories: seq<Category>, slug: Option<string>): (r: bool)
    ensures r <==> exists c :: c in categories && Some(c.urlSlug) == slug
  {
    FirstOrDefault(categories, (c: Category) => Some(c.urlSlug) == slug).Some?
  }

  /** The `CategoryItem` projection of `GetCategoriesAsync`. */
  function CategoryItemOf(c: Category, posts: seq<Post>): CategoryItem
  {
    CategoryItem(c.id, c.name, c.urlSlug, c.description, c.showOnMenu, PublishedCount(posts, OfCategory(c.id)))
  }

  /** The ordering of `OrderBy(x => x.Name)`. */
  predicate NameBefore(a: Category, b: Category)
  {
    OrdinalLe(a.name, b.name)
  }

  lemma NameBeforeTotalPreorder()
    ensures TotalPreorder(NameBefore)
  {
    forall a: Category, b: Category ensures NameBefore(a, b) || NameBefore(b, a) {
      OrdinalLeTotal(a.name, b.name);
    }
    forall a: Category, b: Category, c: Category | NameBefore(a, b) && NameBefore(b, c)
      ensures NameBefore(a, c)
    {
      OrdinalLeTransitive(a.name, b.name, c.name);
    }
  }

  /** `Select` with `CategoryItemOf`, in the order given. */
  function CategoryItemsOf(cs: seq<Category>, posts: seq<Post>): (r: seq<CategoryItem>)
    ensures |r| == |cs|
    ensures forall i :: 0 <= i < |r| ==> r[i] == CategoryItemOf(cs[i], posts)
  {
    if cs == [] then [] else [CategoryItemOf(cs[0], posts)] + CategoryItemsOf(cs[1..], posts)
  }

  /** The categories `GetCategoriesAsync(showOnMenu)` lists: all, or those shown on the menu. */
  function ShownCategories(categories: seq<Category>, showOnMenu: bool): (r: seq<Category>)
    ensures |r| <= |categories|
    ensures forall c :: c in r <==> c in categories && (showOnMenu ==> c.showOnMenu)
  {
    if showOnMenu then Where(categories, (c: Category) => c.showOnMenu) else categories
  }

  /**
   * `GetCategoriesAsync(showOnMenu)`: the categories (only those shown on the
   * menu when `showOnMenu`), ordered by name, each with its published-post
   * count.
   */
  function GetCategories(categories: seq<Category>, posts: seq<Post>, showOnMenu: bool): seq<CategoryItem>
  {
    NameBeforeTotalPreorder();
    CategoryItemsOf(OrderBy(ShownCategories(categories, showOnMenu), NameBefore), posts)
  }

  /**
   * `GetCategoriesAsync` lists, in name order, one item per listed category
   * (every category, or those shown on the menu), and each item carries its
   * category's fields and published-post count.
   */
  lemma GetCategoriesListsShownByName(categories: seq<Category>, posts: seq<Post>, showOnMenu: bool)
    ensures var r := GetCategories(categories, posts, showOnMenu);
      && |r| == |ShownCategories(categories, showOnMenu)|
      && (!showOnMenu ==> |r| == |categories|)
      && (forall i, j :: 0 <= i < j < |r| ==> OrdinalLe(r[i].name, r[j].name))
      && (forall i :: 0 <= i < |r| ==>
            exists c :: c in categories && (showOnMenu ==> c.showOnMenu) && r[i] == CategoryItemOf(c, posts))
      && (forall c :: c in categories && (showOnMenu ==> c.showOnMenu) ==> CategoryItemOf(c, posts) in r)
  {
    NameBeforeTotalPreorder();
    var shown := ShownCategories(categories, showOnMenu);
    var sorted := OrderBy(shown, NameBefore);
    var r := CategoryItemsOf(sorted, posts);
    assert r == GetCategories(categories, posts, showOnMenu);
    assert |sorted| == |shown| by {
      assert |multiset(sorted)| == |multiset(shown)|;
    }
    forall i, j | 0 <= i < j < |r| ensures OrdinalLe(r[i].name, r[j].name) {
      assert NameBefore(sorted[i], sorted[j]);
    }
    forall i | 0 <= i < |r|
      ensures exists c :: c in categories && (showOnMenu ==> c.showOnMenu) && r[i] == CategoryItemOf(c, posts)
    {
      assert sorted[i] in multiset(shown);
    }
    forall c | c in categories && (showOnMenu ==> c.showOnMenu) ensures CategoryItemOf(c, posts) in r {
      assert c in multiset(sorted);
      var i :| 0 <= i < |sorted| && sorted[i] == c;
      assert r[i] == CategoryItemOf(c, posts);
    }
  }

  /** `GetCategorysAsync`: every category in table order; its projection leaves `ShowOnMenu` false. */
  function GetCategorys(categories: seq<Category>, posts: seq<Post>): (r: seq<CategoryItem>)
    ensures |r| == |categories|
    ensures forall i :: 0 <= i < |r| ==>
      r[i] == CategoryItemOf(categories[i], posts).(showOnMenu := false)
  {
    if categories == [] then []
    else [CategoryItemOf(categories[0], posts).(showOnMenu := false)] + GetCategorys(categories[1..], posts)
  }

  /** The sum of the `PostCount`s of a list of items. */
  function SumPostCounts(items: seq<CategoryItem>): nat
  {
    if items == [] then 0 else items[0].postCount + SumPostCounts(items[1..])
  }

  /** The published posts whose category is one of `ids`. */
  function PublishedInCategories(posts: seq<Post>, ids: set<int>): nat
  {
    if posts == [] then 0
    else (if posts[0].published && posts[0].categoryId in ids then 1 else 0)
         + PublishedInCategories(posts[1..], ids)
  }

  lemma {:induction false} PublishedInCategoriesSplit(posts: seq<Post>, ids: set<int>, id: int)
    requires id !in ids
    ensures PublishedInCategories(posts, ids + {id})
         == PublishedInCategories(posts, ids) + PublishedCount(posts, OfCategory(id))
  {
    if posts != [] {
      PublishedInCategoriesSplit(posts[1..], ids, id);
    }
  }

  lemma {:induction false} SumIsPublishedInCategories(categories: seq<Category>, posts: seq<Post>)
    requires DistinctCategoryIds(categories)
    ensures SumPostCounts(GetCategorys(categories, posts)) == PublishedInCategories(posts, CategoryIds(categories))
  {
    if categories == [] {
      assert CategoryIds(categories) == {};
      PublishedInCategoriesEmpty(posts);
    } else {
      var rest := categories[1..];
      var c := categories[0];
      assert CategoryIds(categories) == CategoryIds(rest) + {c.id} by {
        assert categories == [c] + rest;
      }
      assert c.id !in CategoryIds(rest);
      SumIsPublishedInCategories(rest, posts);
      PublishedInCategoriesSplit(posts, CategoryIds(rest), c.id);
    }
  }

  lemma {:induction false} PublishedInCategoriesEmpty(posts: seq<Post>)
    ensures PublishedInCategories(posts, {}) == 0
  {
    if posts != [] {
      PublishedInCategoriesEmpty(posts[1..]);
    }
  }

  lemma {:induction false} PublishedInAllCategories(posts: seq<Post>, ids: set<int>)
    requires forall p :: p in posts ==> p.categoryId in ids
    ensures PublishedInCategories(posts, ids) == PublishedTotal(posts)
  {
    if posts != [] {
      PublishedInAllCategories(posts[1..], ids);
    }
  }

  /**
   * Every published post is counted under exactly one category: when the
   * category keys are distinct and every post's category exists, the
   * `PostCount`s of `GetCategorysAsync` add up to the number of published posts.
   */
  lemma CategoryCountsPartitionPublished(categories: seq<Category>, posts: seq<Post>)
    requires DistinctCategoryIds(categories)
    requires forall p :: p in posts ==> p.categoryId in CategoryIds(categories)
    ensures SumPostCounts(GetCategorys(categories, posts)) == PublishedTotal(posts)
  {
    SumIsPublishedInCategories(categories, posts);
    PublishedInAllCategories(posts, CategoryIds(categories));
  }
}
