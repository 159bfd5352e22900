/**
 * The blog's records (authors, categories, tags and posts), the projections the
 * repository returns, and the integrity the database keeps over its tables.
 */
module Entities {
  import opened Wrappers

  /** The range of a 32-bit `int` column. */
  const Int32Min: int := -0x8000_0000
  const Int32Max: int := 0x7FFF_FFFF

  predicate IsInt32(x: int) { Int32Min <= x <= Int32Max }

  /** The calendar part of a `DateTime`. The queries read only its year and month. */
  datatype Date = Date(year: int, month: int, day: int)

  datatype Author = Author(
    id: int, fullName: string, urlSlug: string, email: string,
    joinedDate: Date, imageUrl: Option<string>, notes: Option<string>)

  datatype Category = Category(
    id: int, name: string, urlSlug: string, description: string, showOnMenu: bool)

  datatype Tag = Tag(id: int, name: string, urlSlug: string, description: string)

  /**
   * A post. `authorId` and `categoryId` are its foreign keys; `tagIds` are the
   * rows of the post-to-tag join table that name this post.
   */
  datatype Post = Post(
    id: int, title: string, shortDescription: string, description: string,
    meta: string, urlSlug: string, published: bool, postedDate: Date,
    modifiedDate: Option<Date>, viewCount: int, imageUrl: Option<string>,
    authorId: int, categoryId: int, tagIds: set<int>)

  /** The row a `Posts` navigation collection hangs from. */
  datatype Owner = OfAuthor(id: int) | OfCategory(id: int) | OfTag(id: int)

  /** Post `p` is in the `Posts` collection of `o`. */
  predicate BelongsTo(p: Post, o: Owner)
  {
    match o
    case OfAuthor(id) => p.authorId == id
    case OfCategory(id) => p.categoryId == id
    case OfTag(id) => id in p.tagIds
  }

  /** `o.Posts.Count(p => p.Published)`: the published posts in `o`'s collection. */
  function PublishedCount(posts: seq<Post>, o: Owner): (r: nat)
    ensures r <= |posts|
    ensures r == 0 <==> forall i :: 0 <= i < |posts| ==> !(posts[i].published && BelongsTo(posts[i], o))
  {
    if posts == [] then 0
    else (if posts[0].published && BelongsTo(posts[0], o) then 1 else 0) + PublishedCount(posts[1..], o)
  }

  /** The published posts of the whole table. */
  function PublishedTotal(posts: seq<Post>): nat
  {
    if posts == [] then 0 else (if posts[0].published then 1 else 0) + PublishedTotal(posts[1..])
  }

  /** `CategoryItem`: a category with the number of its published posts. */
  datatype CategoryItem = CategoryItem(
    id: int, name: string, urlSlug: string, description: string,
    showOnMenu: bool, postCount: nat)

  /** `TagItem`: a tag with the number of its published posts. */
  datatype TagItem = TagItem(
    id: int, name: string, urlSlug: string, description: string, postCount: nat)

  function PostIds(posts: seq<Post>): set<int> { set p | p in posts :: p.id }
  function TagIds(tags: seq<Tag>): set<int> { set t | t in tags :: t.id }
  function CategoryIds(categories: seq<Category>): set<int> { set c | c in categories :: c.id }
  function AuthorIds(authors: seq<Author>): set<int> { set a | a in authors :: a.id }

  /** The primary keys of each table are distinct. */
  predicate DistinctPostIds(posts: seq<Post>)
  {
    forall i, j :: 0 <= i < j < |posts| ==> posts[i].id != posts[j].id
  }

  predicate DistinctTagIds(tags: seq<Tag>)
  {
    forall i, j :: 0 <= i < j < |tags| ==> tags[i].id != tags[j].id
  }

  predicate DistinctCategoryIds(categories: seq<Category>)
  {
    forall i, j :: 0 <= i < j < |categories| ==> categories[i].id != categories[j].id
  }

  predicate DistinctAuthorIds(authors: seq<Author>)
  {
    forall i, j :: 0 <= i < j < |authors| ==> authors[i].id != authors[j].id
  }

  /** Every foreign key of a post names an existing row, and its view count fits its `int` column. */
  predicate PostRowsValid(posts: seq<Post>, tags: seq<Tag>, categories: seq<Category>, authors: seq<Author>)
  {
    forall p :: p in posts ==>
      && IsInt32(p.viewCount)
      && p.authorId in AuthorIds(authors)
      && p.categoryId in CategoryIds(categories)
      && p.tagIds <= TagIds(tags)
  }

  /** What the database's keys and constraints guarantee of its four tables. */
  predicate WellFormed(posts: seq<Post>, tags: seq<Tag>, categories: seq<Category>, authors: seq<Author>)
  {
    && DistinctPostIds(posts) && DistinctTagIds(tags)
    && DistinctCategoryIds(categories) && DistinctAuthorIds(authors)
    && PostRowsValid(posts, tags, categories, authors)
  }
}
