/**
 * The state-changing operations of `BlogRepository`: view counting,
 * publishing, and deleting and upserting tags. Each is a method on a
 * repository that holds the database context; the new contents of each table
 * are given by a function of the old contents, whose properties are proved
 * as lemmas.
 */
module BlogRepository {
  import opened Wrappers
  import opened Linq
  import opened Entities
  import opened Contexts
  import opened BlogQueries

  // ---------------------------------------------------------------------------
  // View counts

  /** The post table after `UPDATE ... SET ViewCount = ViewCount + 1 WHERE Id = id`. */
  function IncrementViewCount(posts: seq<Post>, id: int): (r: seq<Post>)
    ensures |r| == |posts|
    ensures forall i :: 0 <= i < |posts| ==>
      r[i] == if posts[i].id == id then posts[i].(viewCount := posts[i].viewCount + 1) else posts[i]
  {
    if posts == [] then []
    else
      [if posts[0].id == id then posts[0].(viewCount := posts[0].viewCount + 1) else posts[0]]
      + IncrementViewCount(posts[1..], id)
  }

  /** The sum of the view counts of the table. */
  function TotalViews(posts: seq<Post>): int
  {
    if posts == [] then 0 else posts[0].viewCount + TotalViews(posts[1..])
  }

  /**
   * One increment adds exactly one view to the table when a post has the key,
   * and none otherwise.
   */
  lemma {:induction false} IncrementAddsOneView(posts: seq<Post>, id: int)
    requires DistinctPostIds(posts)
    ensures TotalViews(IncrementViewCount(posts, id)) == TotalViews(posts) + (if id in PostIds(posts) then 1 else 0)
  {
    if posts != [] {
      var rest := posts[1..];
      assert PostIds(posts) == PostIds(rest) + {posts[0].id} by {
        assert posts == [posts[0]] + rest;
      }
      IncrementAddsOneView(rest, id);
      assert IncrementViewCount(posts, id)[1..] == IncrementViewCount(rest, id);
      if posts[0].id == id {
        forall j | 0 <= j < |rest| ensures rest[j].id != id {
          assert posts[j + 1].id != posts[0].id;
        }
      }
    }
  }

  /** `IncreaseViewCountAsync` called `n` times in a row. */
  function IncrementTimes(posts: seq<Post>, id: int, n: nat): seq<Post>
  {
    if n == 0 then posts else IncrementViewCount(IncrementTimes(posts, id, n - 1), id)
  }

  /** `n` increments raise the post's count by exactly `n` and touch nothing else. */
  lemma {:induction false} IncrementTimesAddsN(posts: seq<Post>, id: int, n: nat)
    ensures |IncrementTimes(posts, id, n)| == |posts|
    ensures forall i :: 0 <= i < |posts| ==>
      IncrementTimes(posts, id, n)[i]
        == (if posts[i].id == id then posts[i].(viewCount := posts[i].viewCount + n) else posts[i])
  {
    if n > 0 {
      IncrementTimesAddsN(posts, id, n - 1);
    }
  }

  // ---------------------------------------------------------------------------
  // Publishing

  /** `FindAsync(postId)`: the position of the post with that key. */
  function IndexOfPost(posts: seq<Post>, id: int): (r: Option<nat>)
    ensures r.Some? ==> r.value < |posts| && posts[r.value].id == id
    ensures r.Some? ==> forall j :: 0 <= j < r.value ==> posts[j].id != id
    ensures r.None? <==> id !in PostIds(posts)
  {
    FirstIndex(posts, (p: Post) => p.id == id)
  }

  /** The post table after `TogglePublishedFlagAsync(id)`: the post with that key, if any, has its flag negated. */
  function TogglePublished(posts: seq<Post>, id: int): seq<Post>
  {
    match IndexOfPost(posts, id)
    case None => posts
    case Some(i) => posts[i := posts[i].(published := !posts[i].published)]
  }

  /** With distinct keys, toggling negates the flag of the post with the key and changes nothing else. */
  lemma ToggleFlipsOnlyTarget(posts: seq<Post>, id: int)
    requires DistinctPostIds(posts)
    ensures |TogglePublished(posts, id)| == |posts|
    ensures forall i :: 0 <= i < |posts| ==>
      TogglePublished(posts, id)[i]
        == (if posts[i].id == id then posts[i].(published := !posts[i].published) else posts[i])
  {
  }

  /** Toggling twice restores the table. */
  lemma ToggleTwiceRestores(posts: seq<Post>, id: int)
    ensures TogglePublished(TogglePublished(posts, id), id) == posts
  {
    var once := TogglePublished(posts, id);
    match IndexOfPost(posts, id)
    case None =>
    case Some(i) =>
      SamePostKeys(posts, once);
      var k := IndexOfPost(once, id).value;
      assert once[i].id == id && posts[k].id == id;
      assert k == i;
  }

  /** Two tables whose rows have the same keys position by position have the same key set. */
  lemma SamePostKeys(a: seq<Post>, b: seq<Post>)
    requires |a| == |b| && forall i :: 0 <= i < |a| ==> a[i].id == b[i].id
    ensures PostIds(a) == PostIds(b)
  {
    forall x | x in PostIds(a) ensures x in PostIds(b) {
      var p :| p in a && p.id == x;
      var j :| 0 <= j < |a| && a[j] == p;
      assert b[j] in b;
    }
    forall x | x in PostIds(b) ensures x in PostIds(a) {
      var p :| p in b && p.id == x;
      var j :| 0 <= j < |b| && b[j] == p;
      assert a[j] in a;
    }
  }

  lemma SameTagKeys(a: seq<Tag>, b: seq<Tag>)
    requires |a| == |b| && forall i :: 0 <= i < |a| ==> a[i].id == b[i].id
    ensures TagIds(a) == TagIds(b)
  {
    forall x | x in TagIds(a) ensures x in TagIds(b) {
      var t :| t in a && t.id == x;
      var j :| 0 <= j < |a| && a[j] == t;
      assert b[j] in b;
    }
    forall x | x in TagIds(b) ensures x in TagIds(a) {
      var t :| t in b && t.id == x;
      var j :| 0 <= j < |b| && b[j] == t;
      assert a[j] in a;
    }
  }

  // ---------------------------------------------------------------------------
  // Tags

  /** The tag table after `DELETE FROM Tags WHERE Id = id`. */
  function RemoveTagId(tags: seq<Tag>, id: int): (r: seq<Tag>)
    ensures |r| <= |tags|
    ensures forall t :: t in r <==> t in tags && t.id != id
    ensures id !in TagIds(tags) ==> r == tags
  {
    if tags == [] then []
    else
      assert forall t :: t in tags <==> t == tags[0] || t in tags[1..];
      assert TagIds(tags) == TagIds(tags[1..]) + {tags[0].id} by {
        assert tags == [tags[0]] + tags[1..];
      }
      (if tags[0].id != id then [tags[0]] else []) + RemoveTagId(tags[1..], id)
  }

  /** Removing a key keeps the remaining keys distinct. */
  lemma {:induction false} RemoveTagIdKeepsDistinct(tags: seq<Tag>, id: int)
    requires DistinctTagIds(tags)
    ensures DistinctTagIds(RemoveTagId(tags, id))
  {
    if tags != [] {
      RemoveTagIdKeepsDistinct(tags[1..], id);
      var rest := RemoveTagId(tags[1..], id);
      forall t | t in rest ensures t.id != tags[0].id {
        var j :| 0 <= j < |tags[1..]| && tags[1..][j] == t;
        assert tags[j + 1] == t;
      }
    }
  }

  /** With distinct keys, removing an existing key removes exactly that one row. */
  lemma {:induction false} RemoveExistingTag(tags: seq<Tag>, i: nat)
    requires DistinctTagIds(tags) && i < |tags|
    ensures multiset(RemoveTagId(tags, tags[i].id)) == multiset(tags) - multiset{tags[i]}
    ensures |RemoveTagId(tags, tags[i].id)| == |tags| - 1
  {
    var id := tags[i].id;
    if i == 0 {
      assert tags == [tags[0]] + tags[1..];
      forall j | 0 <= j < |tags[1..]| ensures tags[1..][j].id != id {
        assert tags[j + 1].id != tags[0].id;
      }
    } else {
      RemoveExistingTag(tags[1..], i - 1);
      assert tags == [tags[0]] + tags[1..];
      assert tags[0].id != id;
    }
  }

  /** The post table after the join rows naming tag `id` are deleted. */
  function DetachTag(posts: seq<Post>, id: int): (r: seq<Post>)
    ensures |r| == |posts|
    ensures forall i :: 0 <= i < |posts| ==> r[i] == posts[i].(tagIds := posts[i].tagIds - {id})
  {
    if posts == [] then []
    else [posts[0].(tagIds := posts[0].tagIds - {id})] + DetachTag(posts[1..], id)
  }

  /** Deleting tag `id`'s join rows leaves every other published-post count unchanged. */
  lemma {:induction false} DetachKeepsOtherCounts(posts: seq<Post>, id: int, o: Owner)
    requires o != OfTag(id)
    ensures PublishedCount(DetachTag(posts, id), o) == PublishedCount(posts, o)
  {
    if posts != [] {
      assert DetachTag(posts, id)[1..] == DetachTag(posts[1..], id);
      DetachKeepsOtherCounts(posts[1..], id, o);
    }
  }

  /** After its deletion a tag is no longer found by its key. */
  lemma DeletedTagNotFound(tags: seq<Tag>, id: int)
    ensures FindTagWithId(RemoveTagId(tags, id), id) == None
  {
  }

  /** The tag table after `Update(tag)`: the row with `tag`'s key now holds `tag`. */
  function ReplaceTag(tags: seq<Tag>, tag: Tag): (r: seq<Tag>)
    ensures |r| == |tags|
    ensures forall i :: 0 <= i < |tags| ==> r[i] == if tags[i].id == tag.id then tag else tags[i]
  {
    if tags == [] then []
    else [if tags[0].id == tag.id then tag else tags[0]] + ReplaceTag(tags[1..], tag)
  }

  /** After an update the key finds the new values. */
  lemma UpdatedTagFound(tags: seq<Tag>, tag: Tag)
    requires tag.id in TagIds(tags)
    ensures FindTagWithId(ReplaceTag(tags, tag), tag.id) == Some(tag)
  {
    var t :| t in tags && t.id == tag.id;
    var j :| 0 <= j < |tags| && tags[j] == t;
    assert tag.id in TagIds(ReplaceTag(tags, tag)) by {
      assert ReplaceTag(tags, tag)[j] == tag;
    }
  }

  /** After an insert the generated key finds the new tag. */
  lemma AddedTagFound(tags: seq<Tag>, tag: Tag, newId: int)
    requires newId !in TagIds(tags)
    ensures FindTagWithId(tags + [tag.(id := newId)], newId) == Some(tag.(id := newId))
  {
    var added := tags + [tag.(id := newId)];
    assert added[|tags|] == tag.(id := newId);
    assert newId in TagIds(added);
    var r := FindTagWithId(added, newId);
    assert r.value in tags || r.value == tag.(id := newId);
  }

  // ---------------------------------------------------------------------------
  // The repository

  class BlogRepository {
    const context: BlogDbContext

    constructor (context: BlogDbContext)
      ensures this.context == context
    {
      this.context := context;
    }

    /**
     * `IncreaseViewCountAsync(postId)`: one set-based update adds one view to
     * the post with that key; no such post is a no-op. A count already at the
     * `int` maximum makes the database reject the statement, and nothing changes.
     */
    method IncreaseViewCount(postId: int) returns (r: Outcome)
      requires context.Valid()
      modifies context
      ensures context.Valid()
      ensures r.Fail? <==> exists p :: p in old(context.posts) && p.id == postId && p.viewCount == Int32Max
      ensures r.Fail? ==> r.error == ArithmeticOverflow && context.posts == old(context.posts)
      ensures r.Pass? ==> context.posts == IncrementViewCount(old(context.posts), postId)
      ensures context.tags == old(context.tags) && context.categories == old(context.categories)
      ensures context.authors == old(context.authors) && context.nextTagId == old(context.nextTagId)
    {
      if Any(context.posts, (p: Post) => p.id == postId && p.viewCount == Int32Max) {
        return Fail(ArithmeticOverflow);
      }
      IncrementKeepsWellFormed(context.posts, context.tags, context.categories, context.authors, postId);
      context.posts := IncrementViewCount(context.posts, postId);
      r := Pass;
    }

    /**
     * `TogglePublishedFlagAsync(postId)`: negates the post's `Published` flag
     * and returns the new value. A missing post also yields `false`, with
     * nothing changed.
     */
    method TogglePublishedFlag(postId: int) returns (r: bool)
      requires context.Valid()
      modifies context
      ensures context.Valid()
      ensures context.posts == TogglePublished(old(context.posts), postId)
      ensures r <==> exists p :: p in old(context.posts) && p.id == postId && !p.published
      ensures postId !in PostIds(old(context.posts)) ==> !r && context.posts == old(context.posts)
      ensures context.tags == old(context.tags) && context.categories == old(context.categories)
      ensures context.authors == old(context.authors) && context.nextTagId == old(context.nextTagId)
    {
      var found := IndexOfPost(context.posts, postId);
      if found.None? {
        return false;
      }
      var i := found.value;
      ghost var before := context.posts;
      ToggleKeepsWellFormed(context.posts, context.tags, context.categories, context.authors, i);
      context.posts := context.posts[i := context.posts[i].(published := !context.posts[i].published)];
      r := context.posts[i].published;
      assert r <==> exists p :: p in before && p.id == postId && !p.published by {
        if exists p :: p in before && p.id == postId && !p.published {
          var p :| p in before && p.id == postId && !p.published;
          var j :| 0 <= j < |before| && before[j] == p;
          assert j == i;
        }
      }
    }

    /**
     * `DeleleTagWithSlugAsync(slug)`: deletes the first tag carrying `slug`
     * (and its join rows) and returns true; returns false, changing nothing,
     * when no tag carries it.
     */
    method DeleteTagWithSlug(slug: Option<string>) returns (r: bool)
      requires context.Valid()
      modifies context
      ensures context.Valid()
      ensures r <==> exists t :: t in old(context.tags) && Some(t.urlSlug) == slug
      ensures !r ==> context.tags == old(context.tags) && context.posts == old(context.posts)
      ensures r ==> var t := GetTag(old(context.tags), slug).value;
        && context.tags == RemoveTagId(old(context.tags), t.id)
        && multiset(context.tags) == multiset(old(context.tags)) - multiset{t}
        && |context.tags| == |old(context.tags)| - 1
        && context.posts == DetachTag(old(context.posts), t.id)
      ensures context.categories == old(context.categories) && context.authors == old(context.authors)
      ensures context.nextTagId == old(context.nextTagId)
    {
      var found := GetTag(context.tags, slug);
      if found.None? {
        return false;
      }
      var t := found.value;
      var i :| 0 <= i < |context.tags| && context.tags[i] == t;
      RemoveExistingTag(context.tags, i);
      DeleteTagKeepsValid(context.posts, context.tags, context.categories, context.authors, context.nextTagId, t.id);
      context.tags, context.posts := RemoveTagId(context.tags, t.id), DetachTag(context.posts, t.id);
      r := true;
    }

    /**
     * `DeleteTagAsync(tagId)`: one set-based delete of the tag with that key
     * (and its join rows); true when a row was deleted.
     */
    method DeleteTag(tagId: int) returns (r: bool)
      requires context.Valid()
      modifies context
      ensures context.Valid()
      ensures r <==> tagId in TagIds(old(context.tags))
      ensures context.tags == RemoveTagId(old(context.tags), tagId)
      ensures context.posts == DetachTag(old(context.posts), tagId)
      ensures !r ==> context.tags == old(context.tags) && context.posts == old(context.posts)
      ensures context.categories == old(context.categories) && context.authors == old(context.authors)
      ensures context.nextTagId == old(context.nextTagId)
    {
      r := tagId in TagIds(context.tags);
      if !r {
        DetachAbsentTag(context.posts, context.tags, tagId);
      }
      DeleteTagKeepsValid(context.posts, context.tags, context.categories, context.authors, context.nextTagId, tagId);
      context.tags, context.posts := RemoveTagId(context.tags, tagId), DetachTag(context.posts, tagId);
    }

    /**
     * `CreateOrUpdateTagAsync(tag)`: a positive key updates that row; key 0
     * inserts the tag under the next identity value. True on success. An
     * update of a key no row has is a concurrency failure, an exhausted
     * identity an overflow, and a negative key an explicit value the identity
     * column refuses; each changes nothing.
     */
    method CreateOrUpdateTag(tag: Tag) returns (r: Result<bool>)
      requires context.Valid()
      modifies context
      ensures context.Valid()
      ensures tag.id > 0 && tag.id !in TagIds(old(context.tags)) ==>
        r == Failure(ConcurrencyConflict) && context.tags == old(context.tags)
      ensures tag.id > 0 && tag.id in TagIds(old(context.tags)) ==>
        r == Success(true) && context.tags == ReplaceTag(old(context.tags), tag)
      ensures tag.id < 0 ==> r == Failure(IdentityInsert) && context.tags == old(context.tags)
      ensures tag.id == 0 && old(context.nextTagId) > Int32Max ==>
        r == Failure(ArithmeticOverflow) && context.tags == old(context.tags)
      ensures tag.id == 0 && old(context.nextTagId) <= Int32Max ==>
        && r == Success(true)
        && context.tags == old(context.tags) + [tag.(id := old(context.nextTagId))]
        && context.nextTagId == old(context.nextTagId) + 1
      ensures r.Failure? || tag.id > 0 ==> context.nextTagId == old(context.nextTagId)
      ensures context.posts == old(context.posts) && context.categories == old(context.categories)
      ensures context.authors == old(context.authors)
    {
      if tag.id > 0 {
        if tag.id !in TagIds(context.tags) {
          return Failure(ConcurrencyConflict);
        }
        ReplaceKeepsValid(context.posts, context.tags, context.categories, context.authors, context.nextTagId, tag);
        context.tags := ReplaceTag(context.tags, tag);
      } else if tag.id < 0 {
        return Failure(IdentityInsert);
      } else {
        if context.nextTagId > Int32Max {
          return Failure(ArithmeticOverflow);
        }
        AddKeepsValid(context.posts, context.tags, context.categories, context.authors, context.nextTagId, tag);
        context.tags := context.tags + [tag.(id := context.nextTagId)];
        context.nextTagId := context.nextTagId + 1;
      }
      r := Success(true);
    }

    /**
     * `DeleteCategoryWithSlugAsync(slug)`: true when a category carries `slug`.
     * The removal is never saved, so no table changes.
     */
    method DeleteCategoryWithSlug(slug: Option<string>) returns (r: bool)
      ensures r <==> exists c :: c in context.categories && Some(c.urlSlug) == slug
    {
      var found := FirstOrDefault(context.categories, (c: Category) => Some(c.urlSlug) == slug);
      r := found.Some?;
    }
  }

  /** With the view-count check passed, an increment keeps every row valid. */
  lemma IncrementKeepsWellFormed(posts: seq<Post>, tags: seq<Tag>, categories: seq<Category>, authors: seq<Author>, id: int)
    requires WellFormed(posts, tags, categories, authors)
    requires forall p :: p in posts && p.id == id ==> p.viewCount != Int32Max
    ensures WellFormed(IncrementViewCount(posts, id), tags, categories, authors)
  {
    var r := IncrementViewCount(posts, id);
    forall p | p in r
      ensures IsInt32(p.viewCount) && p.authorId in AuthorIds(authors)
      ensures p.categoryId in CategoryIds(categories) && p.tagIds <= TagIds(tags)
    {
      var i :| 0 <= i < |r| && r[i] == p;
      assert posts[i] in posts;
    }
  }

  /** Negating one post's flag keeps every row valid. */
  lemma ToggleKeepsWellFormed(posts: seq<Post>, tags: seq<Tag>, categories: seq<Category>, authors: seq<Author>, i: nat)
    requires WellFormed(posts, tags, categories, authors) && i < |posts|
    ensures WellFormed(posts[i := posts[i].(published := !posts[i].published)], tags, categories, authors)
  {
    var r := posts[i := posts[i].(published := !posts[i].published)];
    forall p | p in r
      ensures IsInt32(p.viewCount) && p.authorId in AuthorIds(authors)
      ensures p.categoryId in CategoryIds(categories) && p.tagIds <= TagIds(tags)
    {
      var j :| 0 <= j < |r| && r[j] == p;
      assert posts[j] in posts;
    }
  }

  /** Deleting join rows for a key no tag has changes no post. */
  lemma DetachAbsentTag(posts: seq<Post>, tags: seq<Tag>, id: int)
    requires forall p :: p in posts ==> p.tagIds <= TagIds(tags)
    requires id !in TagIds(tags)
    ensures DetachTag(posts, id) == posts
  {
    var r := DetachTag(posts, id);
    forall i | 0 <= i < |posts| ensures r[i] == posts[i] {
      assert posts[i] in posts;
      assert posts[i].tagIds - {id} == posts[i].tagIds;
    }
  }

  /** Deleting a tag and its join rows keeps the keys and references valid. */
  lemma DeleteTagKeepsValid(posts: seq<Post>, tags: seq<Tag>, categories: seq<Category>, authors: seq<Author>, nextTagId: int, id: int)
    requires WellFormed(posts, tags, categories, authors) && IdentityAhead(tags, nextTagId)
    ensures WellFormed(DetachTag(posts, id), RemoveTagId(tags, id), categories, authors)
    ensures IdentityAhead(RemoveTagId(tags, id), nextTagId)
  {
    var posts', tags' := DetachTag(posts, id), RemoveTagId(tags, id);
    RemoveTagIdKeepsDistinct(tags, id);
    forall x | x in TagIds(tags) - {id} ensures x in TagIds(tags') {
      var t :| t in tags && t.id == x;
      assert t in tags';
    }
    forall i, j | 0 <= i < j < |posts'| ensures posts'[i].id != posts'[j].id {
      assert posts[i].id != posts[j].id;
    }
    forall p | p in posts'
      ensures IsInt32(p.viewCount) && p.authorId in AuthorIds(authors)
      ensures p.categoryId in CategoryIds(categories) && p.tagIds <= TagIds(tags')
    {
      var i :| 0 <= i < |posts'| && posts'[i] == p;
      assert posts[i] in posts;
    }
  }

  /** Updating a tag in place keeps its key, so every key and reference stays valid. */
  lemma ReplaceKeepsValid(posts: seq<Post>, tags: seq<Tag>, categories: seq<Category>, authors: seq<Author>, nextTagId: int, tag: Tag)
    requires WellFormed(posts, tags, categories, authors) && IdentityAhead(tags, nextTagId)
    requires tag.id in TagIds(tags)
    ensures WellFormed(posts, ReplaceTag(tags, tag), categories, authors)
    ensures IdentityAhead(ReplaceTag(tags, tag), nextTagId)
  {
    var tags' := ReplaceTag(tags, tag);
    SameTagKeys(tags, tags');
    forall i, j | 0 <= i < j < |tags'| ensures tags'[i].id != tags'[j].id {
      assert tags[i].id != tags[j].id;
    }
    forall t | t in tags' ensures t.id < nextTagId {
      var j :| 0 <= j < |tags'| && tags'[j] == t;
      assert tags[j] in tags;
    }
  }

  /** Inserting a tag under the identity value keeps the keys distinct and the identity ahead. */
  lemma AddKeepsValid(posts: seq<Post>, tags: seq<Tag>, categories: seq<Category>, authors: seq<Author>, nextTagId: int, tag: Tag)
    requires WellFormed(posts, tags, categories, authors) && IdentityAhead(tags, nextTagId)
    requires nextTagId <= Int32Max
    ensures WellFormed(posts, tags + [tag.(id := nextTagId)], categories, authors)
    ensures IdentityAhead(tags + [tag.(id := nextTagId)], nextTagId + 1)
  {
    var tags' := tags + [tag.(id := nextTagId)];
    forall x | x in TagIds(tags) ensures x in TagIds(tags') {
      var t :| t in tags && t.id == x;
      assert t in tags';
    }
    forall i, j | 0 <= i < j < |tags'| ensures tags'[i].id != tags'[j].id {
      if j == |tags'| - 1 {
        assert tags[i] in tags;
      }
    }
  }
}
