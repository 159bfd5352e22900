/**
 * `PostQuery` and `FilterPosts`: the posts a query selects. `FilterPosts`
 * starts from the whole post table and, for each criterion the query sets,
 * narrows it with one `Where`. Navigation properties (`x.Category`,
 * `x.Author`, `x.Tags`) are joins against the other tables.
 */
module PostFilter {
  import opened Wrappers
  import opened Text
  import opened Entities

  /**
   * The criteria of a post search. A string criterion is inactive when it is
   * null or white space, an id when it is not positive, a flag when false.
   * `postMonth` is carried but no step reads it.
   */
  datatype PostQuery = PostQuery(
    keyword: Option<string>, categoryId: int, categorySlug: Option<string>,
    tagSlug: Option<string>, authorId: int, authorSlug: Option<string>,
    postMonth: Option<string>, publishedOnly: bool, titleSlug: Option<string>,
    notPublished: bool)

  /** `new PostQuery()`: strings null, ids zero, flags false. */
  const DefaultQuery: PostQuery := PostQuery(None, 0, None, None, 0, None, None, false, None, false)

  /** The narrowing steps of `FilterPosts`, one per criterion. */
  datatype Criterion =
    | PublishedOnly | NotPublished | CategoryId | CategorySlug
    | AuthorId | AuthorSlug | TagSlug | Keyword | TitleSlug

  /** The steps in the order `FilterPosts` applies them. */
  const SourceOrder: seq<Criterion> :=
    [PublishedOnly, NotPublished, CategoryId, CategorySlug, AuthorId, AuthorSlug, TagSlug, Keyword, TitleSlug]

  /** Whether `q` switches on the step for `c`. */
  predicate Active(q: PostQuery, c: Criterion)
  {
    match c
    case PublishedOnly => q.publishedOnly
    case NotPublished => q.notPublished
    case CategoryId => q.categoryId > 0
    case CategorySlug => !IsNullOrWhiteSpace(q.categorySlug)
    case AuthorId => q.authorId > 0
    case AuthorSlug => !IsNullOrWhiteSpace(q.authorSlug)
    case TagSlug => !IsNullOrWhiteSpace(q.tagSlug)
    case Keyword => !IsNullOrWhiteSpace(q.keyword)
    case TitleSlug => !IsNullOrWhiteSpace(q.titleSlug)
  }

  /** The `Where` predicate of the step for `c`, applied to post `p`. */
  predicate Holds(q: PostQuery, c: Criterion, p: Post,
                  categories: seq<Category>, authors: seq<Author>, tags: seq<Tag>)
  {
    match c
    case PublishedOnly => p.published
    case NotPublished => !p.published
    case CategoryId => p.categoryId == q.categoryId
    case CategorySlug =>
      exists cat :: cat in categories && cat.id == p.categoryId && Some(cat.urlSlug) == q.categorySlug
    case AuthorId => p.authorId == q.authorId
    case AuthorSlug =>
      exists a :: a in authors && a.id == p.authorId && Some(a.urlSlug) == q.authorSlug
    case TagSlug =>
      exists t :: t in tags && t.id in p.tagIds && Some(t.urlSlug) == q.tagSlug
    case Keyword =>
      q.keyword.Some? && MentionsKeyword(p, q.keyword.value, categories, tags)
    case TitleSlug => Some(p.urlSlug) == q.titleSlug
  }

  /** The keyword occurs in the title, short description, description, category name or a tag name of `p`. */
  predicate MentionsKeyword(p: Post, k: string, categories: seq<Category>, tags: seq<Tag>)
  {
    || Contains(p.title, k)
    || Contains(p.shortDescription, k)
    || Contains(p.description, k)
    || (exists cat :: cat in categories && cat.id == p.categoryId && Contains(cat.name, k))
    || (exists t :: t in tags && t.id in p.tagIds && Contains(t.name, k))
  }

  /** The posts of `s` that satisfy the step for `c`, in order: one `Where`. */
  function WhereHolds(q: PostQuery, c: Criterion, s: seq<Post>,
                      categories: seq<Category>, authors: seq<Author>, tags: seq<Tag>): seq<Post>
  {
    if s == [] then []
    else (if Holds(q, c, s[0], categories, authors, tags) then [s[0]] else [])
         + WhereHolds(q, c, s[1..], categories, authors, tags)
  }

  /** One `if (active) posts = posts.Where(...)` step. */
  function Narrow(q: PostQuery, c: Criterion, s: seq<Post>,
                  categories: seq<Category>, authors: seq<Author>, tags: seq<Tag>): seq<Post>
  {
    if Active(q, c) then WhereHolds(q, c, s, categories, authors, tags) else s
  }

  /** The steps `cs`, applied one after another to `s`. */
  function NarrowAll(q: PostQuery, cs: seq<Criterion>, s: seq<Post>,
                     categories: seq<Category>, authors: seq<Author>, tags: seq<Tag>): seq<Post>
  {
    if cs == [] then s
    else NarrowAll(q, cs[1..], Narrow(q, cs[0], s, categories, authors, tags), categories, authors, tags)
  }

  /** `FilterPosts(condition)`: the post table narrowed by every step in source order. */
  function FilterPosts(q: PostQuery, posts: seq<Post>,
                       categories: seq<Category>, authors: seq<Author>, tags: seq<Tag>): seq<Post>
  {
    NarrowAll(q, SourceOrder, posts, categories, authors, tags)
  }

  // ---------------------------------------------------------------------------
  // The reference definition: one pass, one conjunction of the active criteria.

  /** Post `p` satisfies every criterion that `q` sets. */
  predicate Matches(q: PostQuery, p: Post, categories: seq<Category>, authors: seq<Author>, tags: seq<Tag>)
  {
    && (q.publishedOnly ==> p.published)
    && (q.notPublished ==> !p.published)
    && (q.categoryId > 0 ==> p.categoryId == q.categoryId)
    && (!IsNullOrWhiteSpace(q.categorySlug) ==>
          exists cat :: cat in categories && cat.id == p.categoryId && Some(cat.urlSlug) == q.categorySlug)
    && (q.authorId > 0 ==> p.authorId == q.authorId)
    && (!IsNullOrWhiteSpace(q.authorSlug) ==>
          exists a :: a in authors && a.id == p.authorId && Some(a.urlSlug) == q.authorSlug)
    && (!IsNullOrWhiteSpace(q.tagSlug) ==>
          exists t :: t in tags && t.id in p.tagIds && Some(t.urlSlug) == q.tagSlug)
    && (!IsNullOrWhiteSpace(q.keyword) ==> MentionsKeyword(p, q.keyword.value, categories, tags))
    && (!IsNullOrWhiteSpace(q.titleSlug) ==> Some(p.urlSlug) == q.titleSlug)
  }

  /** The posts of `s` that match `q`, in table order. */
  function MatchingPosts(q: PostQuery, s: seq<Post>,
                         categories: seq<Category>, authors: seq<Author>, tags: seq<Tag>): (r: seq<Post>)
    ensures |r| <= |s|
    ensures forall p :: p in r <==> p in s && Matches(q, p, categories, authors, tags)
  {
    if s == [] then []
    else
      assert forall p :: p in s <==> p == s[0] || p in s[1..];
      (if Matches(q, s[0], categories, authors, tags) then [s[0]] else [])
      + MatchingPosts(q, s[1..], categories, authors, tags)
  }

  /** Step `c` lets `p` through: it is inactive or its predicate holds. */
  predicate Admits(q: PostQuery, c: Criterion, p: Post,
                   categories: seq<Category>, authors: seq<Author>, tags: seq<Tag>)
  {
    Active(q, c) ==> Holds(q, c, p, categories, authors, tags)
  }

  /** Every step of `cs` lets `p` through. */
  predicate AdmitsAll(q: PostQuery, cs: seq<Criterion>, p: Post,
                      categories: seq<Category>, authors: seq<Author>, tags: seq<Tag>)
  {
    forall i :: 0 <= i < |cs| ==> Admits(q, cs[i], p, categories, authors, tags)
  }

  /** `cs` names every criterion (in any order, repeats allowed). */
  predicate Covers(cs: seq<Criterion>)
  {
    forall c: Criterion :: c in cs
  }

  lemma SourceOrderCovers()
    ensures Covers(SourceOrder)
  {
    forall c: Criterion ensures c in SourceOrder {
      match c
      case PublishedOnly => assert SourceOrder[0] == c;
      case NotPublished => assert SourceOrder[1] == c;
      case CategoryId => assert SourceOrder[2] == c;
      case CategorySlug => assert SourceOrder[3] == c;
      case AuthorId => assert SourceOrder[4] == c;
      case AuthorSlug => assert SourceOrder[5] == c;
      case TagSlug => assert SourceOrder[6] == c;
      case Keyword => assert SourceOrder[7] == c;
      case TitleSlug => assert SourceOrder[8] == c;
    }
  }

  /** Passing every step of a covering list is the same as matching the query. */
  lemma AdmitsAllIffMatches(q: PostQuery, cs: seq<Criterion>, p: Post,
                            categories: seq<Category>, authors: seq<Author>, tags: seq<Tag>)
    requires Covers(cs)
    ensures AdmitsAll(q, cs, p, categories, authors, tags) <==> Matches(q, p, categories, authors, tags)
  {
    if AdmitsAll(q, cs, p, categories, authors, tags) {
      forall c: Criterion ensures Admits(q, c, p, categories, authors, tags) {
        assert c in cs;
        var i :| 0 <= i < |cs| && cs[i] == c;
      }
      assert Admits(q, PublishedOnly, p, categories, authors, tags);
      assert Admits(q, NotPublished, p, categories, authors, tags);
      assert Admits(q, CategoryId, p, categories, authors, tags);
      assert Admits(q, CategorySlug, p, categories, authors, tags);
      assert Admits(q, AuthorId, p, categories, authors, tags);
      assert Admits(q, AuthorSlug, p, categories, authors, tags);
      assert Admits(q, TagSlug, p, categories, authors, tags);
      assert Admits(q, Keyword, p, categories, authors, tags);
      assert Admits(q, TitleSlug, p, categories, authors, tags);
    }
  }

  /** One `Where` distributes over concatenation. */
  lemma {:induction false} WhereHoldsConcat(q: PostQuery, c: Criterion, a: seq<Post>, b: seq<Post>,
                                            categories: seq<Category>, authors: seq<Author>, tags: seq<Tag>)
    ensures WhereHolds(q, c, a + b, categories, authors, tags)
         == WhereHolds(q, c, a, categories, authors, tags) + WhereHolds(q, c, b, categories, authors, tags)
  {
    if a == [] {
      assert a + b == b;
    } else {
      assert (a + b)[0] == a[0] && (a + b)[1..] == a[1..] + b;
      WhereHoldsConcat(q, c, a[1..], b, categories, authors, tags);
    }
  }

  /** The chain of steps distributes over concatenation. */
  lemma {:induction false} NarrowAllConcat(q: PostQuery, cs: seq<Criterion>, a: seq<Post>, b: seq<Post>,
                                           categories: seq<Category>, authors: seq<Author>, tags: seq<Tag>)
    ensures NarrowAll(q, cs, a + b, categories, authors, tags)
         == NarrowAll(q, cs, a, categories, authors, tags) + NarrowAll(q, cs, b, categories, authors, tags)
  {
    if cs != [] {
      if Active(q, cs[0]) {
        WhereHoldsConcat(q, cs[0], a, b, categories, authors, tags);
      }
      NarrowAllConcat(q, cs[1..], Narrow(q, cs[0], a, categories, authors, tags),
                      Narrow(q, cs[0], b, categories, authors, tags), categories, authors, tags);
    }
  }

  /** The chain of steps keeps a single post exactly when every step admits it. */
  lemma {:induction false} NarrowAllSingle(q: PostQuery, cs: seq<Criterion>, p: Post,
                                           categories: seq<Category>, authors: seq<Author>, tags: seq<Tag>)
    ensures NarrowAll(q, cs, [p], categories, authors, tags)
         == if AdmitsAll(q, cs, p, categories, authors, tags) then [p] else []
  {
    if cs != [] {
      assert WhereHolds(q, cs[0], [p], categories, authors, tags)
          == (if Holds(q, cs[0], p, categories, authors, tags) then [p] else []);
      if Admits(q, cs[0], p, categories, authors, tags) {
        NarrowAllSingle(q, cs[1..], p, categories, authors, tags);
        assert AdmitsAll(q, cs, p, categories, authors, tags)
           <==> AdmitsAll(q, cs[1..], p, categories, authors, tags) by {
          assert forall i :: 0 < i < |cs| ==> cs[i] == cs[1..][i - 1];
        }
      } else {
        NarrowAllEmpty(q, cs[1..], categories, authors, tags);
      }
    }
  }

  /** Nothing in, nothing out. */
  lemma {:induction false} NarrowAllEmpty(q: PostQuery, cs: seq<Criterion>,
                                          categories: seq<Category>, authors: seq<Author>, tags: seq<Tag>)
    ensures NarrowAll(q, cs, [], categories, authors, tags) == []
  {
    if cs != [] {
      NarrowAllEmpty(q, cs[1..], categories, authors, tags);
    }
  }

  /**
   * The steps commute: applying the narrowing steps of any list that names
   * every criterion selects exactly the posts that match the query, in
   * table order.
   */
  lemma {:induction false} NarrowAllMatches(q: PostQuery, cs: seq<Criterion>, s: seq<Post>,
                                            categories: seq<Category>, authors: seq<Author>, tags: seq<Tag>)
    requires Covers(cs)
    ensures NarrowAll(q, cs, s, categories, authors, tags) == MatchingPosts(q, s, categories, authors, tags)
  {
    if s == [] {
      NarrowAllEmpty(q, cs, categories, authors, tags);
    } else {
      assert s == [s[0]] + s[1..];
      NarrowAllConcat(q, cs, [s[0]], s[1..], categories, authors, tags);
      NarrowAllSingle(q, cs, s[0], categories, authors, tags);
      AdmitsAllIffMatches(q, cs, s[0], categories, authors, tags);
      NarrowAllMatches(q, cs, s[1..], categories, authors, tags);
    }
  }

  /** `FilterPosts` selects exactly the posts that match the query, in table order. */
  lemma FilterPostsExact(q: PostQuery, posts: seq<Post>,
                         categories: seq<Category>, authors: seq<Author>, tags: seq<Tag>)
    ensures FilterPosts(q, posts, categories, authors, tags) == MatchingPosts(q, posts, categories, authors, tags)
  {
    SourceOrderCovers();
    NarrowAllMatches(q, SourceOrder, posts, categories, authors, tags);
  }

  /** A post is returned if and only if it is in the table and meets every active criterion. */
  lemma FilterPostsMembership(q: PostQuery, posts: seq<Post>,
                              categories: seq<Category>, authors: seq<Author>, tags: seq<Tag>)
    ensures forall p :: p in FilterPosts(q, posts, categories, authors, tags)
                    <==> p in posts && Matches(q, p, categories, authors, tags)
  {
    FilterPostsExact(q, posts, categories, authors, tags);
  }

  /** When every post matches, `MatchingPosts` is the whole table. */
  lemma {:induction false} MatchingAll(q: PostQuery, s: seq<Post>,
                                       categories: seq<Category>, authors: seq<Author>, tags: seq<Tag>)
    requires forall p :: p in s ==> Matches(q, p, categories, authors, tags)
    ensures MatchingPosts(q, s, categories, authors, tags) == s
  {
    if s != [] {
      MatchingAll(q, s[1..], categories, authors, tags);
    }
  }

  /** When no post matches, `MatchingPosts` is empty. */
  lemma {:induction false} MatchingNone(q: PostQuery, s: seq<Post>,
                                        categories: seq<Category>, authors: seq<Author>, tags: seq<Tag>)
    requires forall p :: p in s ==> !Matches(q, p, categories, authors, tags)
    ensures MatchingPosts(q, s, categories, authors, tags) == []
  {
    if s != [] {
      MatchingNone(q, s[1..], categories, authors, tags);
    }
  }

  /** A query with no criterion set returns every post, in table order. */
  lemma DefaultQueryReturnsAll(posts: seq<Post>, categories: seq<Category>, authors: seq<Author>, tags: seq<Tag>)
    ensures FilterPosts(DefaultQuery, posts, categories, authors, tags) == posts
  {
    FilterPostsExact(DefaultQuery, posts, categories, authors, tags);
    MatchingAll(DefaultQuery, posts, categories, authors, tags);
  }

  /** `PublishedOnly` and `NotPublished` together select nothing. */
  lemma ConflictingFlagsReturnNothing(q: PostQuery, posts: seq<Post>,
                                      categories: seq<Category>, authors: seq<Author>, tags: seq<Tag>)
    requires q.publishedOnly && q.notPublished
    ensures FilterPosts(q, posts, categories, authors, tags) == []
  {
    FilterPostsExact(q, posts, categories, authors, tags);
    MatchingNone(q, posts, categories, authors, tags);
  }

  /** With `PublishedOnly` every returned post is published; with `NotPublished` none is. */
  lemma PublishedFlagsRespected(q: PostQuery, posts: seq<Post>,
                                categories: seq<Category>, authors: seq<Author>, tags: seq<Tag>)
    ensures q.publishedOnly ==> forall p :: p in FilterPosts(q, posts, categories, authors, tags) ==> p.published
    ensures q.notPublished ==> forall p :: p in FilterPosts(q, posts, categories, authors, tags) ==> !p.published
  {
    FilterPostsMembership(q, posts, categories, authors, tags);
  }

  /**
   * With a keyword that is not blank, every returned post carries it in its
   * title, short description, description, category name or a tag name.
   */
  lemma KeywordSearch(q: PostQuery, posts: seq<Post>,
                      categories: seq<Category>, authors: seq<Author>, tags: seq<Tag>)
    requires !IsNullOrWhiteSpace(q.keyword)
    ensures forall p :: p in FilterPosts(q, posts, categories, authors, tags) ==>
      var k := q.keyword.value;
      || Contains(p.title, k) || Contains(p.shortDescription, k) || Contains(p.description, k)
      || (exists cat :: cat in categories && cat.id == p.categoryId && Contains(cat.name, k))
      || (exists t :: t in tags && t.id in p.tagIds && Contains(t.name, k))
  {
    FilterPostsMembership(q, posts, categories, authors, tags);
  }

  /** `PostMonth` has no effect: the year and month steps are not part of the chain. */
  lemma {:induction false} PostMonthIgnored(q: PostQuery, month: Option<string>, posts: seq<Post>,
                                            categories: seq<Category>, authors: seq<Author>, tags: seq<Tag>)
    ensures FilterPosts(q.(postMonth := month), posts, categories, authors, tags)
         == FilterPosts(q, posts, categories, authors, tags)
  {
    FilterPostsExact(q, posts, categories, authors, tags);
    FilterPostsExact(q.(postMonth := month), posts, categories, authors, tags);
    MatchingIgnoresMonth(q, month, posts, categories, authors, tags);
  }

  lemma {:induction false} MatchingIgnoresMonth(q: PostQuery, month: Option<string>, s: seq<Post>,
                                                categories: seq<Category>, authors: seq<Author>, tags: seq<Tag>)
    ensures MatchingPosts(q.(postMonth := month), s, categories, authors, tags)
         == MatchingPosts(q, s, categories, authors, tags)
  {
    if s != [] {
      MatchingIgnoresMonth(q, month, s[1..], categories, authors, tags);
    }
  }
}
