/** `BlogDbContext`: the four tables of the blog database, as the repositories see them. */
module Contexts {
  import opened Entities

  /** Every tag key is below the next value the tag identity column will hand out. */
  predicate IdentityAhead(tags: seq<Tag>, nextTagId: int)
  {
    && 1 <= nextTagId <= Int32Max + 1
    && forall t :: t in tags ==> t.id < nextTagId
  }

  class BlogDbContext {
    var posts: seq<Post>
    var tags: seq<Tag>
    var categories: seq<Category>
    var authors: seq<Author>
    /** The identity seed of the tag table: the key the next inserted tag receives. */
    var nextTagId: int

    /** The database's keys and constraints hold. */
    ghost predicate Valid()
      reads this
    {
      WellFormed(posts, tags, categories, authors) && IdentityAhead(tags, nextTagId)
    }

    constructor (posts: seq<Post>, tags: seq<Tag>, categories: seq<Category>, authors: seq<Author>, nextTagId: int)
      requires WellFormed(posts, tags, categories, authors) && IdentityAhead(tags, nextTagId)
      ensures Valid()
      ensures this.posts == posts && this.tags == tags && this.categories == categories
      ensures this.authors == authors && this.nextTagId == nextTagId
    {
      this.posts := posts;
      this.tags := tags;
      this.categories := categories;
      this.authors := authors;
      this.nextTagId := nextTagId;
    }
  }
}
