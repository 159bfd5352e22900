/**
 * `AuthorResponsitory`: lookups over the author table and the selection of
 * the authors with the most published posts. Every operation is a query; the
 * one update it declares is not implemented.
 */
module AuthorRepository {
  import opened Wrappers
  import opened Linq
  import opened Entities

  /** `FindAuthorBySlugAsync(slug)`: an author whose slug is `slug`. */
  function FindAuthorBySlug(authors: seq<Author>, slug: Option<string>): (r: Option<Author>)
    ensures r.Some? ==> r.value in authors && Some(r.value.urlSlug) == slug
    ensures r.None? <==> forall a :: a in authors ==> Some(a.urlSlug) != slug
  {
    FirstOrDefault(authors, (a: Author) => Some(a.urlSlug) == slug)
  }

  /** `FindAuthorByIdAsync(id)`: the author with primary key `id`. */
  function FindAuthorById(authors: seq<Author>, id: int): (r: Option<Author>)
    ensures r.Some? ==> r.value in authors && r.value.id == id
    ensures r.None? <==> id !in AuthorIds(authors)
  {
    FirstOrDefault(authors, (a: Author) => a.id == id)
  }

  /** With distinct keys, the author `FindAuthorByIdAsync` returns is the row holding that key. */
  lemma FindAuthorByIdIsTheRow(authors: seq<Author>, i: nat)
    requires DistinctAuthorIds(authors) && i < |authors|
    ensures FindAuthorById(authors, authors[i].id) == Some(authors[i])
  {
    var r := FindAuthorById(authors, authors[i].id);
    assert authors[i].id in AuthorIds(authors);
    var j :| 0 <= j < |authors| && authors[j] == r.value;
    assert j == i;
  }

  /** `UpdateAuthorAsync`: raises `NotImplementedException` for every author; nothing is written. */
  function UpdateAuthor(author: Author): (r: Result<Author>)
    ensures r.Failure? && r.error == NotImplemented
  {
    Failure(NotImplemented)
  }

  /** `IsAuthorExistBySlugAsync(id, slug)`: some author other than `id` already uses `slug`. */
  function IsAuthorExistBySlug(authors: seq<Author>, id: int, slug: Option<string>): (r: bool)
    ensures r <==> exists a :: a in authors && a.id != id && Some(a.urlSlug) == slug
  {
    Any(authors, (a: Author) => a.id != id && Some(a.urlSlug) == slug)
  }

  /** An author never conflicts with itself: only another row with the same slug counts. */
  lemma AuthorSlugOwnIdNoConflict(authors: seq<Author>, i: nat)
    requires DistinctAuthorIds(authors) && i < |authors|
    ensures IsAuthorExistBySlug(authors, authors[i].id, Some(authors[i].urlSlug))
        <==> exists j :: 0 <= j < |authors| && j != i && authors[j].urlSlug == authors[i].urlSlug
  {
    if IsAuthorExistBySlug(authors, authors[i].id, Some(authors[i].urlSlug)) {
      var a :| a in authors && a.id != authors[i].id && a.urlSlug == authors[i].urlSlug;
      var j :| 0 <= j < |authors| && authors[j] == a;
    }
  }

  /** `a.Posts.Count(p => p.Published)`. */
  function PublishedPostsOf(posts: seq<Post>, a: Author): nat
  {
    PublishedCount(posts, OfAuthor(a.id))
  }

  /**
   * The published-post count of `OrderByDescending(count).First()`: the
   * largest count of any author.
   */
  function TopPublishedCount(authors: seq<Author>, posts: seq<Post>): (m: nat)
    requires authors != []
    ensures forall a :: a in authors ==> PublishedPostsOf(posts, a) <= m
    ensures exists a :: a in authors && PublishedPostsOf(posts, a) == m
  {
    var byCount := (a: Author, b: Author) => PublishedPostsOf(posts, a) >= PublishedPostsOf(posts, b);
    assert TotalPreorder(byCount);
    var sorted := OrderBy(authors, byCount);
    assert |sorted| == |authors| by {
      assert |multiset(sorted)| == |multiset(authors)|;
    }
    assert sorted[0] in multiset(authors);
    forall a | a in authors ensures PublishedPostsOf(posts, a) <= PublishedPostsOf(posts, sorted[0]) {
      assert a in multiset(sorted);
      var j :| 0 <= j < |sorted| && sorted[j] == a;
      if j > 0 {
        assert byCount(sorted[0], sorted[j]);
      }
    }
    PublishedPostsOf(posts, sorted[0])
  }

  /**
   * `GetAuthorTopPostAsync(n, ...)` before paging: the first `n` authors whose
   * published-post count equals that of the top author. On an empty author
   * table `First()` raises; that query runs first. A negative `n` is then
   * rejected by the database.
   */
  function GetAuthorTopPost(authors: seq<Author>, posts: seq<Post>, n: int): (r: Result<seq<Author>>)
    ensures r.Failure? <==> authors == [] || n < 0
    ensures r.Failure? ==> r.error == (if authors == [] then EmptySequence else InvalidRowCount)
  {
    if authors == [] then Failure(EmptySequence)
    else if n < 0 then Failure(InvalidRowCount)
    else
      var top := TopPublishedCount(authors, posts);
      Success(Take(Where(authors, (a: Author) => PublishedPostsOf(posts, a) == top), n))
  }

  /** No author has more published posts than `a`. */
  ghost predicate IsTopAuthor(authors: seq<Author>, posts: seq<Post>, a: Author)
  {
    forall b :: b in authors ==> PublishedPostsOf(posts, b) <= PublishedPostsOf(posts, a)
  }

  /** An empty author table fails, whatever `n` is, because `First()` runs before the count is sent. */
  lemma AuthorTopPostFailsOnEmpty(posts: seq<Post>, n: int)
    ensures GetAuthorTopPost([], posts, n) == Failure(EmptySequence)
  {
  }

  /**
   * With at least one author, a negative `n` is rejected. Otherwise every
   * selected author has the largest published-post count of all authors; at
   * most `n` are selected; when `n` is positive at least one is; and when `n`
   * covers the table every author with that count is selected.
   */
  lemma AuthorTopPostSelectsMaxima(authors: seq<Author>, posts: seq<Post>, n: int)
    requires authors != []
    ensures n < 0 ==> GetAuthorTopPost(authors, posts, n) == Failure(InvalidRowCount)
    ensures n >= 0 ==> var r := GetAuthorTopPost(authors, posts, n);
      && r.Success?
      && (forall a :: a in r.value ==> a in authors)
      && (forall a :: a in r.value ==> IsTopAuthor(authors, posts, a))
      && |r.value| <= n
      && (n > 0 ==> r.value != [])
      && (n >= |authors| ==> forall a :: a in authors && IsTopAuthor(authors, posts, a) ==> a in r.value)
  {
    if n < 0 {
      return;
    }
    var top := TopPublishedCount(authors, posts);
    var r := GetAuthorTopPost(authors, posts, n);
    var w := Where(authors, (a: Author) => PublishedPostsOf(posts, a) == top);
    assert r.value == Take(w, n);
    var best :| best in authors && PublishedPostsOf(posts, best) == top;
    assert best in w;
    forall a | a in r.value ensures a in w {
      var i :| 0 <= i < |r.value| && r.value[i] == a;
      assert w[i] == a;
    }
    if n > 0 {
      assert w[0] in w;
      assert r.value[0] == w[0];
    }
    if n >= |authors| {
      assert r.value == w;
    }
  }
}
