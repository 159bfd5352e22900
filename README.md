# TatBlog repositories in Dafny

This project models the data-access core of the TatBlog blog engine. That
core is two repositories over an Entity Framework `BlogDbContext`:

- `BlogRepository` handles posts, tags and categories. It looks up a post by date and slug, by slug or by key. It ranks posts by view count, checks slug conflicts, counts published posts per category and per tag, increments view counts, toggles the published flag, and deletes and upserts tags.
- `AuthorResponsitory` handles authors. It looks up an author by slug or key, checks author slug conflicts and selects the authors with the most published posts.
- `FilterPosts` is the shared post filter built from a `PostQuery`.

Each database table is a sequence of rows in storage order. Every
`FirstOrDefault` without an `OrderBy` reads the first row in that order. A
`null` result is `None`. An exception is a `Failure` (or `Fail`) carrying an
`Error`. The many-to-many post/tag join table is the `tagIds` set of each
post.

Read-only queries are functions of the tables. The state-changing operations
are methods of the class `BlogRepository.BlogRepository`, which holds a
`Contexts.BlogDbContext` object whose table fields they reassign. Each method
states the new contents of every table as a function of the old contents and
keeps the database invariant `Valid()`. That invariant covers:

- distinct keys;
- foreign keys that resolve;
- view counts that fit in an `int`;
- tag keys below the identity seed.

Lemmas next to each table function prove what the operation means. Examples are a view count raised by exactly one, a toggle that undoes itself, a deleted tag that can no longer be found, and an upserted tag found under its key.

Modules: `Wrappers` (Option/Result), `Text` (white space, `string.Contains`,
ordinal order), `Linq` (the query operators used), `Entities` (rows, keys,
published counts), `PostFilter`, `BlogQueries`, `AuthorRepository`,
`Contexts`, `BlogRepository`.

The model follows the code, including these behaviours:

- `TogglePublishedFlagAsync` returns `false` both for a missing post and for a post it has just unpublished.
- `GetPostAsync(slug)` with a blank slug applies no slug filter and returns the first post.
- Post slugs are not unique: a slug lookup returns the first match.
- `GetTagSlusAsync` ignores its slug. See Findings.
- `DeleteCategoryWithSlugAsync` never saves its removal.

## Model

| member | source | states |
|---|---|---|
| Text.IsNullOrWhiteSpace | TatBlog.Services/Blogs/BlogRepository.cs:37 | `string.IsNullOrWhiteSpace`: null, or white space only by the .NET `char.IsWhiteSpace` set; its consequences for the filter are stated by `PostFilter.DefaultQueryReturnsAll` and `BlogQueries.GetPostBySlugBlank` |
| Text.Contains | TatBlog.Services/Blogs/BlogRepository.cs:433-437 | `string.Contains`, ordinal; its meaning is stated by `ContainsIffOccurs` |
| Text.ContainsIffOccurs | TatBlog.Services/Blogs/BlogRepository.cs:433-437 | `Contains(s, k)` holds exactly when `k` occurs in `s` at some position (the empty keyword occurs everywhere) |
| Text.OrdinalLeTotal | TatBlog.Services/Blogs/BlogRepository.cs:92 | any two names are comparable in ordinal order |
| Text.OrdinalLeTransitive | TatBlog.Services/Blogs/BlogRepository.cs:92 | ordinal name order is transitive |
| Text.OrdinalLeAntisymmetric | TatBlog.Services/Blogs/BlogRepository.cs:92 | names ordered both ways are equal |
| Linq.Where | TatBlog.Services/Blogs/BlogRepository.cs:29-39 | the result holds exactly the rows of the input that satisfy the predicate, and is no longer than the input |
| Linq.FirstIndex | TatBlog.Services/Blogs/BlogRepository.cs:42 | the position of the first row satisfying the predicate, none before it does, and none exactly when no row does |
| Linq.FirstOrDefault | TatBlog.Services/Blogs/BlogRepository.cs:42 | a returned row is in the table and satisfies the predicate; `None` exactly when no row does |
| Linq.First | TatBlog.Services/Blogs/BlogRepository.cs:127 | `FirstOrDefault()` without a predicate: `None` exactly for an empty sequence, otherwise its head |
| Linq.Any | TatBlog.Services/Blogs/BlogRepository.cs:64-65 | true exactly when some row satisfies the predicate |
| Linq.Take | TatBlog.Services/Blogs/BlogRepository.cs:54 | for a count `n >= 0`, a prefix of length `min(n, |s|)`; callers turn a negative count into the database's rejection |
| Linq.Insert | TatBlog.Services/Blogs/BlogRepository.cs:53 | inserting into a sorted sequence keeps it sorted and adds exactly that element |
| Linq.OrderBy | TatBlog.Services/Blogs/BlogRepository.cs:53 | the result is sorted by the key order and is a permutation of the input |
| Linq.TakeOfSorted | TatBlog.Services/Blogs/BlogRepository.cs:53-54 | after sorting, every row kept by `Take` is ordered before every row left out |
| Entities.PublishedCount | TatBlog.Services/Blogs/BlogRepository.cs:100 | `Posts.Count(p => p.Published)` for a category, tag or author is at most the number of posts, and zero exactly when none of them is published |
| PostFilter.FilterPosts | TatBlog.Services/Blogs/BlogRepository.cs:389-455 | the nine `Where` steps in source order; its contract is `FilterPostsExact` (it equals the reference filter `MatchingPosts`) |
| PostFilter.MatchingPosts | TatBlog.Services/Blogs/BlogRepository.cs:389-455 | reference filter: exactly the posts satisfying every active criterion of the query, in table order |
| PostFilter.SourceOrderCovers | TatBlog.Services/Blogs/BlogRepository.cs:396-453 | the filter's nine steps cover every criterion |
| PostFilter.AdmitsAllIffMatches | TatBlog.Services/Blogs/BlogRepository.cs:396-453 | passing every step of a covering sequence of steps is the same as matching the whole query |
| PostFilter.WhereHoldsConcat | TatBlog.Services/Blogs/BlogRepository.cs:398 | one `Where` step distributes over concatenated tables |
| PostFilter.NarrowAllConcat | TatBlog.Services/Blogs/BlogRepository.cs:396-453 | the chain of steps distributes over concatenated tables |
| PostFilter.NarrowAllSingle | TatBlog.Services/Blogs/BlogRepository.cs:396-453 | a single post survives the chain exactly when it passes every step |
| PostFilter.NarrowAllEmpty | TatBlog.Services/Blogs/BlogRepository.cs:396-453 | the chain of steps keeps an empty table empty |
| PostFilter.NarrowAllMatches | TatBlog.Services/Blogs/BlogRepository.cs:396-453 | applying the steps in any covering order gives the reference filter, so the order of the `Where` calls does not matter |
| PostFilter.FilterPostsExact | TatBlog.Services/Blogs/BlogRepository.cs:389-455 | `FilterPosts` equals the reference filter |
| PostFilter.FilterPostsMembership | TatBlog.Services/Blogs/BlogRepository.cs:389-455 | a post is returned exactly when it is in the table and matches the query |
| PostFilter.MatchingAll | TatBlog.Services/Blogs/BlogRepository.cs:389-455 | when every post matches, the filter returns the whole table unchanged |
| PostFilter.MatchingNone | TatBlog.Services/Blogs/BlogRepository.cs:389-455 | when no post matches, the filter returns nothing |
| PostFilter.DefaultQueryReturnsAll | TatBlog.Core/DTO/PostQuery.cs:10-31 | an empty query (no flag, zero ids, no strings) returns every post in table order |
| PostFilter.ConflictingFlagsReturnNothing | TatBlog.Services/Blogs/BlogRepository.cs:396-404 | asking for published-only and not-published at once returns nothing |
| PostFilter.PublishedFlagsRespected | TatBlog.Services/Blogs/BlogRepository.cs:396-404 | with `PublishedOnly` every result is published; with `NotPublished` none is |
| PostFilter.KeywordSearch | TatBlog.Services/Blogs/BlogRepository.cs:431-438 | with a non-blank keyword every result mentions it in its title, short description, description, category name or a tag name |
| PostFilter.PostMonthIgnored | TatBlog.Services/Blogs/BlogRepository.cs:440-448 | `PostMonth` has no effect on the filter |
| PostFilter.MatchingIgnoresMonth | TatBlog.Core/DTO/PostQuery.cs:24 | the reference filter does not read `PostMonth` either |
| BlogQueries.GetPost | TatBlog.Services/Blogs/BlogRepository.cs:21-45 | a found post is in the table and has the requested year, month and slug for each positive or non-blank argument; `None` exactly when no post matches them |
| BlogQueries.GetPostBySlug | TatBlog.Services/Blogs/BlogRepository.cs:271-282 | the first post of `FilterPosts` for a slug-only query; its contract is `GetPostBySlugBlank` and `GetPostBySlugFinds` |
| BlogQueries.GetPostBySlugBlank | TatBlog.Services/Blogs/BlogRepository.cs:271-282 | a blank slug filters nothing: the first post of the table, published or not |
| BlogQueries.GetPostBySlugFinds | TatBlog.Services/Blogs/BlogRepository.cs:271-282 | a non-blank slug finds a post with that slug, published or not, and none exactly when no post has it |
| BlogQueries.GetPostById | TatBlog.Services/Blogs/BlogRepository.cs:284-298 | a found post is stored and has the key; `None` exactly when no post has it, with or without `includeDetails` |
| BlogQueries.MoreViewedTotalPreorder | TatBlog.Services/Blogs/BlogRepository.cs:53 | "more views first" is a total preorder, so the ranking sort is well defined |
| BlogQueries.GetPopularArticles | TatBlog.Services/Blogs/BlogRepository.cs:48-59 | fails with `InvalidRowCount` exactly for a negative count; the ranking itself is stated by `PopularArticlesTopN` |
| BlogQueries.PopularArticlesTopN | TatBlog.Services/Blogs/BlogRepository.cs:48-59 | a negative count fails with `InvalidRowCount`; otherwise returns `min(numPosts, |posts|)` posts from the table, in non-increasing view count, and no omitted post has more views than a returned one |
| BlogQueries.IsPostSlugExisted | TatBlog.Services/Blogs/BlogRepository.cs:62-68 | true exactly when a post with another key uses the slug |
| BlogQueries.PostSlugOwnIdNoConflict | TatBlog.Services/Blogs/BlogRepository.cs:62-68 | checking a stored post's own slug under its own key reports a conflict exactly when another row has that slug |
| BlogQueries.PostSlugCheckForNewPost | TatBlog.Services/Blogs/BlogRepository.cs:62-68 | for a new post (key 0) the check is whether any post uses the slug |
| BlogQueries.GetTagSlus | TatBlog.Services/Blogs/BlogRepository.cs:123-128 | as written: the first tag of the table, `None` only for an empty table |
| BlogQueries.GetTagSlusReturnsWrongTag | TatBlog.Services/Blogs/BlogRepository.cs:123-128 | a table holding only the `net-core` tag answers a request for `react` with that tag |
| BlogQueries.GetTag | TatBlog.Services/Blogs/BlogRepository.cs:233-238 | a found tag is in the table and has the slug; `None` exactly when no tag has it |
| BlogQueries.FindTagWithId | TatBlog.Services/Blogs/BlogRepository.cs:177-181 | a found tag has the key; `None` exactly when no tag has it |
| BlogQueries.GetTags | TatBlog.Services/Blogs/BlogRepository.cs:131-142 | one item per tag, in table order, each carrying the tag's fields and its published-post count |
| BlogQueries.TagCountAtMostPublished | TatBlog.Services/Blogs/BlogRepository.cs:140 | a tag's post count never exceeds the number of published posts |
| BlogQueries.FindCategoryWithId | TatBlog.Services/Blogs/BlogRepository.cs:184-189 | a found category has the key; `None` exactly when no category has it |
| BlogQueries.IsCategoryExistSlug | TatBlog.Services/Blogs/BlogRepository.cs:208-220 | true exactly when some category has the slug |
| BlogQueries.NameBeforeTotalPreorder | TatBlog.Services/Blogs/BlogRepository.cs:92 | ordering categories by name is a total preorder |
| BlogQueries.CategoryItemsOf | TatBlog.Services/Blogs/BlogRepository.cs:93-101 | one item per category, in the given order, each carrying its published-post count |
| BlogQueries.ShownCategories | TatBlog.Services/Blogs/BlogRepository.cs:84-89 | the categories listed: all of them, or exactly those shown on the menu when `showOnMenu` is set |
| BlogQueries.GetCategories | TatBlog.Services/Blogs/BlogRepository.cs:82-103 | the listed categories sorted by name and projected with their counts; its contract is `GetCategoriesListsShownByName` |
| BlogQueries.GetCategoriesListsShownByName | TatBlog.Services/Blogs/BlogRepository.cs:82-103 | one item per listed category, sorted by name, every listed category present with its published count, nothing else present |
| BlogQueries.GetCategorys | TatBlog.Services/Blogs/BlogRepository.cs:163-174 | one item per category in table order with its published count; the projection leaves `ShowOnMenu` false |
| BlogQueries.PublishedInCategoriesSplit | TatBlog.Services/Blogs/BlogRepository.cs:172 | published posts in a union of disjoint categories add up |
| BlogQueries.SumIsPublishedInCategories | TatBlog.Services/Blogs/BlogRepository.cs:163-174 | the category counts add up to the published posts whose category is listed |
| BlogQueries.PublishedInCategoriesEmpty | TatBlog.Services/Blogs/BlogRepository.cs:172 | no category holds no published post |
| BlogQueries.PublishedInAllCategories | TatBlog.Services/Blogs/BlogRepository.cs:172 | when every post's category is listed, the listed categories hold every published post |
| BlogQueries.CategoryCountsPartitionPublished | TatBlog.Services/Blogs/BlogRepository.cs:163-174 | with distinct category keys and resolving foreign keys, the per-category counts sum to the number of published posts |
| AuthorRepository.FindAuthorBySlug | TatBlog.Services/Blogs/AuthorResponsitory.cs:25-30 | a found author is in the table and has the slug; `None` exactly when none has it |
| AuthorRepository.FindAuthorById | TatBlog.Services/Blogs/AuthorResponsitory.cs:32-36 | a found author has the key; `None` exactly when none has it |
| AuthorRepository.FindAuthorByIdIsTheRow | TatBlog.Services/Blogs/AuthorResponsitory.cs:32-36 | with distinct keys, looking up a stored author's key returns that author |
| AuthorRepository.UpdateAuthor | TatBlog.Services/Blogs/AuthorResponsitory.cs:38-41 | always fails as not implemented |
| AuthorRepository.IsAuthorExistBySlug | TatBlog.Services/Blogs/AuthorResponsitory.cs:43-46 | true exactly when an author with another key uses the slug |
| AuthorRepository.AuthorSlugOwnIdNoConflict | TatBlog.Services/Blogs/AuthorResponsitory.cs:43-46 | checking a stored author's own slug under its own key reports a conflict exactly when another author has it |
| AuthorRepository.TopPublishedCount | TatBlog.Services/Blogs/AuthorResponsitory.cs:65-67 | the largest published-post count of any author, attained by some author |
| AuthorRepository.GetAuthorTopPost | TatBlog.Services/Blogs/AuthorResponsitory.cs:63-72 | fails exactly when there is no author (`EmptySequence`, from `First()`) or `n` is negative (`InvalidRowCount`, from `TOP`); the selection itself is stated by `AuthorTopPostSelectsMaxima` |
| AuthorRepository.AuthorTopPostFailsOnEmpty | TatBlog.Services/Blogs/AuthorResponsitory.cs:65-67 | an empty author table fails with an empty-sequence error whatever `n` is, since `First()` runs before the count is sent |
| AuthorRepository.AuthorTopPostSelectsMaxima | TatBlog.Services/Blogs/AuthorResponsitory.cs:63-72 | with at least one author, a negative `n` fails with `InvalidRowCount`; otherwise every selected author is stored and has the top count, at most `n` are selected, at least one when `n` is positive, and all top authors when `n` covers the table |
| Contexts.BlogDbContext.constructor | TatBlog.Data/Contexts/BlogDbContext.cs:14-31 | a context over four valid tables holds them and is valid |
| BlogRepository.IncrementViewCount | TatBlog.Services/Blogs/BlogRepository.cs:71-78 | the post with the key has one more view; every other row is unchanged |
| BlogRepository.IncrementAddsOneView | TatBlog.Services/Blogs/BlogRepository.cs:71-78 | with distinct keys, the table's total views grow by one when the key exists and by nothing otherwise |
| BlogRepository.IncrementTimesAddsN | TatBlog.Services/Blogs/BlogRepository.cs:71-78 | `n` increments add exactly `n` views to that post and touch no other row |
| BlogRepository.IndexOfPost | TatBlog.Services/Blogs/BlogRepository.cs:303 | the position of the first post with the key; none exactly when no post has it |
| BlogRepository.TogglePublished | TatBlog.Services/Blogs/BlogRepository.cs:300-311 | the post table after a toggle; its contract is `ToggleFlipsOnlyTarget` and `ToggleTwiceRestores` |
| BlogRepository.ToggleFlipsOnlyTarget | TatBlog.Services/Blogs/BlogRepository.cs:300-311 | with distinct keys, a toggle negates the flag of the post with the key and leaves every other row alone |
| BlogRepository.ToggleTwiceRestores | TatBlog.Services/Blogs/BlogRepository.cs:300-311 | toggling twice restores the table |
| BlogRepository.RemoveTagId | TatBlog.Services/Blogs/BlogRepository.cs:250-252 | exactly the tags without the key remain, and a missing key deletes nothing |
| BlogRepository.RemoveTagIdKeepsDistinct | TatBlog.Services/Blogs/BlogRepository.cs:250-252 | deleting a key keeps the remaining keys distinct |
| BlogRepository.RemoveExistingTag | TatBlog.Services/Blogs/BlogRepository.cs:156-157 | with distinct keys, deleting a stored tag removes exactly that one row |
| BlogRepository.DetachTag | TatBlog.Services/Blogs/BlogRepository.cs:156-157 | every post loses the deleted tag from its tags and keeps everything else |
| BlogRepository.DetachKeepsOtherCounts | TatBlog.Services/Blogs/BlogRepository.cs:250-252 | deleting one tag's join rows changes no other published count (of other tags, categories or authors) |
| BlogRepository.DeletedTagNotFound | TatBlog.Services/Blogs/BlogRepository.cs:177-181 | after deletion the key finds no tag |
| BlogRepository.ReplaceTag | TatBlog.Services/Blogs/BlogRepository.cs:258-261 | the row with the tag's key now holds the tag; every other row is unchanged |
| BlogRepository.UpdatedTagFound | TatBlog.Services/Blogs/BlogRepository.cs:255-268 | after an update the key finds the new values |
| BlogRepository.AddedTagFound | TatBlog.Services/Blogs/BlogRepository.cs:262-267 | after an insert the generated key finds the new tag |
| BlogRepository.BlogRepository.constructor | TatBlog.Services/Blogs/BlogRepository.cs:14-17 | the repository works on the context it is given |
| BlogRepository.BlogRepository.IncreaseViewCount | TatBlog.Services/Blogs/BlogRepository.cs:71-78 | adds one view to the post with the key (none if absent) and keeps the database valid; fails with an overflow, changing nothing, exactly when that post's count is at the `int` maximum; other tables unchanged |
| BlogRepository.BlogRepository.TogglePublishedFlag | TatBlog.Services/Blogs/BlogRepository.cs:300-311 | negates the post's flag and returns true exactly when a post with the key existed unpublished; a missing key returns false and changes nothing |
| BlogRepository.BlogRepository.DeleteTagWithSlug | TatBlog.Services/Blogs/BlogRepository.cs:145-160 | returns true exactly when a tag has the slug; then removes exactly the first such tag (the other rows keep their order) and its join rows, otherwise changes nothing |
| BlogRepository.BlogRepository.DeleteTag | TatBlog.Services/Blogs/BlogRepository.cs:240-253 | removes the tag with the key and its join rows; true exactly when such a tag existed, and nothing changes otherwise |
| BlogRepository.BlogRepository.CreateOrUpdateTag | TatBlog.Services/Blogs/BlogRepository.cs:255-268 | a positive key replaces that row, or fails with a concurrency conflict when the row does not exist; key 0 inserts the tag under the next identity value, or fails with an overflow when the identity is exhausted; a negative key is an explicit identity value and fails with `IdentityInsert`; every failure changes nothing, posts and the other tables are unchanged, and the database stays valid |
| BlogRepository.BlogRepository.DeleteCategoryWithSlug | TatBlog.Services/Blogs/BlogRepository.cs:192-205 | true exactly when some category has the slug; the removal is never saved, so no table changes |
| BlogRepository.IncrementKeepsWellFormed | TatBlog.Services/Blogs/BlogRepository.cs:71-78 | an increment that passed the overflow check keeps every key and reference valid |
| BlogRepository.ToggleKeepsWellFormed | TatBlog.Services/Blogs/BlogRepository.cs:307-308 | negating one flag keeps the database valid |
| BlogRepository.DetachAbsentTag | TatBlog.Services/Blogs/BlogRepository.cs:250-252 | deleting the join rows of a key that no tag has changes no post |
| BlogRepository.DeleteTagKeepsValid | TatBlog.Services/Blogs/BlogRepository.cs:250-252 | deleting a tag and its join rows keeps keys distinct, references resolving and the identity ahead |
| BlogRepository.ReplaceKeepsValid | TatBlog.Services/Blogs/BlogRepository.cs:260 | updating a stored tag keeps the database valid |
| BlogRepository.AddKeepsValid | TatBlog.Services/Blogs/BlogRepository.cs:264 | inserting under the identity value keeps keys distinct and moves the identity past the new key |

## Left out

- GetPagedPostsAsync (both overloads), GetPagedTagsAsync and GetPagedAuthorsAsync: the paging extension `ToPagedListAsync` is not part of this model. The filter they page, `FilterPosts`, is modelled. The author projection only copies fields.
- AuthorRepository.AuthorTopPostSelectsMaxima: the paging applied after `Take(n)` is not modelled. The contract describes the `Take(n)` result.
- GetRandomArticlesAsync: it orders by fresh random GUIDs, so it has no deterministic result to model.
- CreateOrUpdatePostAsync: its tag-synchronising body is commented out. As written it returns the post it was given and writes nothing, which is not worth a member.
- FindPostByPostQueryAsync: it always throws `NotImplementedException`. The same behaviour is modelled once, for `UpdateAuthorAsync`.
- The `Include` calls only load navigation properties and do not change which rows are returned. The navigations are modelled as joins on the foreign keys.
- The EF change tracker is not modelled. `DeleteCategoryWithSlugAsync` marks a category for removal without saving it. A later `SaveChangesAsync` on the same context would commit that removal; the model treats the call as changing nothing.
- Cancellation tokens, `async`, and concurrent writers are not modelled.
- SQL Server collation is not modelled: strings compare ordinally and case-sensitively. A case-insensitive collation would also match slugs that differ only in case. SQL Server's `=` also ignores trailing spaces, so `'react '` would match `'react'` there but not in the model.
- BlogRepository.DeleteTag and BlogRepository.DeleteTagWithSlug: the mapping files that configure the join table are not part of this model. The cascade from a deleted tag to its post/tag join rows is assumed, following EF's default for many-to-many joins.
- The order of rows with equal sort keys: the database promises none, and the model's insertion sort keeps table order. No contract relies on it.
- The identity seed of the `Posts`, `Categories` and `Authors` tables is not modelled, since no modelled operation inserts into them.
- The data seeder, the web and WinForms front ends, and the connection string are not modelled.

## Findings

| source | as written | input that shows it | evidently intended | confidence | as-written member | corrected member |
|---|---|---|---|---|---|---|
| TatBlog.Services/Blogs/BlogRepository.cs:123-128 | `GetTagSlusAsync` builds `queryTag.Where(x => x.UrlSlug == slug)`, discards the result and returns the first tag of the whole table | a table with only the tag `net-core`, slug `react`: the `net-core` tag is returned | return the first tag whose slug is `slug`, or null, as `GetTagAsync` (lines 233-238) does | not executed | BlogQueries.GetTagSlusReturnsWrongTag | BlogQueries.GetTag |
