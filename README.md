# Article publish workflow: posts and discussions

A Dafny model of the two article services of the CMS core, `PostService` and
`DiscussionService`. Each service creates, updates, deletes and fetches one
kind of article. Every article has:

- a base row in the articles table, stamped with its kind, owner, textual id
  and binary storage key;
- a row in its kind's extension table (posts or discussions), keyed by the
  same storage key;
- rows in the article-tag association table, one per attached catalog tag.

The model is imperative, like the services. `Articles.Database` is a class
whose fields are the three row tables, the association table and the tag
catalog. Its methods are the mapper writes the services make:
`insert`, `update` under `article_uuid`, `delete` under `article_uuid`, the
association `delete`, and `select` + `insertTags`. A ghost write log records
those calls in order. `Posts.PostService` and `Discussions.DiscussionService`
hold the shared database, and each service operation is a method on it.

Each method is specified against pure functions of the old state: the rows it
builds (`NewArticleRow`, `NewPostRow`, `PostChanges`, …) and the table
operations (`Insert`, `UpdateWhere`, `DeleteWhere`, `Tagged`, `Retagged`).
Lemmas then prove what the services promise about those functions:

- the tag lists read back after a create or an update;
- images survive an update with no new upload;
- columns are preserved;
- every article keeps exactly the extension row of its kind.

Modules, in dependency order:

| file | module | contents |
|---|---|---|
| identity.dfy | `Identity` | textual ids and the binary storage key derived from them (injective) |
| values.dfy | `Values` | column values, rows as maps from column to value, PHP's array `+`, PHP truthiness |
| tables.dfy | `Tables` | tables keyed by `article_uuid`; insert, update, delete and the kind mapper's joined `get` |
| tags.dfy | `Tagging` | catalog selection, `insertTags`, association delete, tag ids in association order |
| articles.dfy | `Articles` | filter results, the filter check, the base rows, the kind invariant, the `Database` class |
| posts.dfy | `Posts` | post rows, the image rules, `PostService` |
| discussions.dfy | `Discussions` | discussion rows, `DiscussionService` |

Modelling choices:

- **PHP `+` keeps the left operand's value.** The filters' values are
  the left operand, so a filter that itself supplied `type` or `article_uuid`
  would override the value the service stamps. The identity and kind properties
  therefore hold under `LeavesIdentity`: the filters supply none of those
  columns. The row contracts say precisely what happens either way.
- **Lookup by textual id.** `get($id)` and, in a Post fetch by id,
  `getTages($articleId)` are given the article's textual id. The model takes
  the mappers to look the row up under that id's storage key,
  `Uuid(Encode(id))`. A Post fetch by slug passes `getTages` the row's stored
  `article_uuid` instead; the model reads the associations under that key.
- **The joined row keeps the base row's value on a shared column.** A kind
  mapper's `get` is modelled as the inner join of the base row and the
  extension row.
- **Post and Discussion tag requests differ.** A Post creates or re-inserts
  tags only for `isset($data['tags']) && $data['tags']`, which is
  `Posts.TagRequest`. A Discussion does so whenever `isset($data['tags'])`
  holds, so an empty list still makes the `select` and `insertTags` calls. The
  model takes a `select` with an empty id list to return no tags, so that
  `insertTags` then adds no association.
- **Create keys its rows differently in the two services.** Post keys its
  extension row by `$article['article_uuid']`. Discussion keys its row by the
  freshly computed `$uuId`. Both insert tags under `$article['article_uuid']`.
  The row builders follow each source exactly.

The model keeps these behaviours of the code as written:

- update has no existence check;
- the writes are sequential, with no transaction;
- delete does not remove tag associations;
- a Discussion create with an empty tag list still runs the tag step.

## Model

| member | source | states |
|---|---|---|
| Identity.Encode | src/Core/Service/Article/PostService.php:125-126 | the storage key derived from a textual id decodes back to that id |
| Identity.EncodeDecode | src/Core/Service/Article/PostService.php:125-126 | encoding a key's decoded id gives the key back |
| Identity.EncodeInjective | src/Core/Service/Article/PostService.php:125-126 | two ids have the same storage key exactly when they are equal |
| Values.Plus | src/Core/Service/Article/PostService.php:122 | PHP array `+`: the union of both operands' keys, the left operand's value kept on a shared key, the right operand's value on a key only it has |
| Tables.Insert | src/Core/Service/Article/PostService.php:141-142 | the row is stored under its `article_uuid`, other rows unchanged, tables stay keyed by `article_uuid` |
| Tables.UpdateWhere | src/Core/Service/Article/PostService.php:175-176 | the row under `where` gets the changed columns on top of its stored ones, an absent key changes nothing, other rows unchanged, the key set unchanged when `article_uuid` is not changed |
| Tables.DeleteWhere | src/Core/Service/Article/PostService.php:193-194 | exactly the row under the key is removed, the others kept as they were |
| Tables.Lookup | src/Core/Service/Article/PostService.php:104 | a kind mapper's `get` finds a row exactly when both the base row and the extension row exist, and the row carries the key it was found under |
| Tables.LookupAfterInsert | src/Core/Service/Article/PostService.php:141-142 | after both rows of an article are inserted, `get` on its key returns their join and other keys fetch as before |
| Tables.LookupAfterDelete | src/Core/Service/Article/PostService.php:193-194 | after both rows of an article are deleted, `get` on its key finds nothing and other keys fetch as before |
| Tagging.SelectTags | src/Core/Service/Article/PostService.php:145 | the selected tags are exactly the catalog tags whose id was requested, never more than the catalog holds |
| Tagging.Associate | src/Core/Service/Article/PostService.php:146 | `insertTags` adds one association of the article per selected tag, in order |
| Tagging.Detach | src/Core/Service/Article/PostService.php:177 | deleting an article's associations keeps exactly the associations of the other articles |
| Tagging.TagRows | src/Core/Service/Article/PostService.php:108 | `getTages` returns exactly the article's associations |
| Tagging.TagIds | src/Core/Service/Article/PostService.php:108-110 | one tag id per association row, row by row |
| Tagging.TagIdsOf | src/Core/Service/Article/DiscussionService.php:51 | `getTagIds`: a tag id is in an article's tag list exactly when the article is associated with that tag |
| Tagging.Tagged | src/Core/Service/Article/PostService.php:144-147 | a create's tag step keeps the existing associations in order, first, and adds exactly the associations of the new article with the catalog tags the request names, none when no request is made |
| Tagging.Retagged | src/Core/Service/Article/PostService.php:177-182 | an update's tag step keeps exactly the associations of other articles and gives the article exactly the associations with the catalog tags the request names, none when no request is made |
| Tagging.TagRowsAppend | src/Core/Service/Article/PostService.php:146 | an article's associations in a concatenation are its associations in each part, in order |
| Tagging.TagRowsOfAssociate | src/Core/Service/Article/PostService.php:146 | the rows `insertTags` adds belong to the article they were inserted for and to no other |
| Tagging.TagRowsOfDetach | src/Core/Service/Article/PostService.php:177 | after the association delete the article has none left and every other article keeps its own in order |
| Tagging.CreatedTagIds | src/Core/Service/Article/PostService.php:144-147 | an article no association mentions reads back exactly the inserted ids, in insertion order |
| Tagging.ReplacedTagIds | src/Core/Service/Article/PostService.php:177-182 | delete-all then insert leaves the article with exactly the inserted ids and every other article with what it had |
| Tagging.TaggedLists | src/Core/Service/Article/DiscussionService.php:81-84 | after a create's tag step a new article lists exactly the catalog tags selected for the request, and none when no request is made |
| Tagging.RetaggedLists | src/Core/Service/Article/DiscussionService.php:102-107 | after an update's tag step the article lists exactly the selected catalog tags (none when tags are omitted), and every other article keeps its list |
| Articles.CheckFilters | src/Core/Service/Article/PostService.php:121-123 | an exception is thrown exactly when either filter is invalid; it is a `FilterException` whose messages are the left-biased union of both filters' messages |
| Articles.NewArticleRow | src/Core/Service/Article/PostService.php:128-133 | the base row holds the filter's values plus owner, kind, textual id and storage key, each stamped value kept unless the filter supplies that column |
| Articles.UpdatedArticleRow | src/Core/Service/Article/PostService.php:160 | the base update record is the filter's values plus the existing row's `article_uuid`, with no kind, owner or textual id added |
| Articles.KindOfUpdated | src/Core/Service/Article/PostService.php:175 | an update record without `type` keeps the row's kind |
| Articles.UpdatedArticleKeeps | src/Core/Service/Article/PostService.php:160-175 | after a base update under its own key, the filter's columns hold the filter's values and every other column (owner, textual id, kind) its stored value |
| Articles.LinkedAfterCreate | src/Core/Service/Article/PostService.php:141-142 | inserting an article's base row and its kind's extension row keeps every article linked to exactly the extension row of its kind |
| Articles.LinkedAfterUpdate | src/Core/Service/Article/DiscussionService.php:100-101 | updating both rows under the article's key, without touching `type` or the key, keeps every article linked to its kind's extension row |
| Articles.LinkedAfterDelete | src/Core/Service/Article/PostService.php:193-194 | deleting an existing extension row and its base row keeps every remaining article linked to its kind's extension row |
| Articles.Database.constructor | src/Core/Service/Article/PostService.php:67-79 | empty tables over a given tag catalog, keyed and linked, with an empty write log |
| Articles.Database.InsertInto | src/Core/Service/Article/PostService.php:141-142 | `insert` changes only the named table, by `Insert`, and logs the call |
| Articles.Database.UpdateIn | src/Core/Service/Article/PostService.php:175-176 | `update` changes only the named table, by `UpdateWhere`, and logs the call |
| Articles.Database.DeleteFrom | src/Core/Service/Article/PostService.php:193-194 | `delete` changes only the named table, by `DeleteWhere`, and logs the call |
| Articles.Database.DeleteTagsOf | src/Core/Service/Article/PostService.php:177 | the association delete removes the article's associations, nothing else, and logs the call |
| Articles.Database.InsertTagsFor | src/Core/Service/Article/PostService.php:180-181 | `select` on the catalog then `insertTags` appends one association per selected tag, nothing else, and logs the call |
| Posts.TagRequest | src/Core/Service/Article/PostService.php:144 | a post makes a tag request exactly when `tags` is set and non-empty, and then it is the requested list |
| Posts.NewPostRow | src/Core/Service/Article/PostService.php:135-139 | the post row holds the filter's values plus both upload results and the base row's key, each kept unless the filter supplies that column |
| Posts.WithoutEmptyImagesColumns | src/Core/Service/Article/PostService.php:166-173 | dropping empty images keeps every non-image column, and an image column exactly when its value is truthy |
| Posts.PostChanges | src/Core/Service/Article/PostService.php:161-173 | the post update record keeps every column the post filter supplied other than the images, and adds no column except the two image columns |
| Posts.PostChangesColumns | src/Core/Service/Article/PostService.php:161-173 | the post update record has the filter's columns other than the images, and each image column only when its value (the filter's, else the upload's) is truthy |
| Posts.DropEmptyImages | src/Core/Service/Article/PostService.php:166-173 | the two `unset` steps remove exactly the falsy image columns |
| Posts.ImagesOnUpdate | src/Core/Service/Article/PostService.php:161-176 | with no image column from the filter, a truthy upload overwrites the stored image and an empty one leaves it |
| Posts.UpdatedPostImages | src/Core/Service/Article/PostService.php:161-176 | the stored post after the update holds the new upload where it is truthy and the previous image reference otherwise |
| Posts.UpdatedPostLinked | src/Core/Service/Article/PostService.php:175-176 | a post update under its own key keeps every article linked to its kind's extension row |
| Posts.PostService.constructor | src/Core/Service/Article/PostService.php:67-79 | the service works on the given database |
| Posts.PostService.AttachTags | src/Core/Service/Article/PostService.php:107-110 | the `foreach` leaves `tags` holding the article's tag ids in association order, every other column unchanged |
| Posts.PostService.FetchSingleArticle | src/Core/Service/Article/PostService.php:102-114 | no result exactly when the post does not exist; otherwise the joined row with `tags` set to its tag ids in association order |
| Posts.PostService.FetchSingleArticleBySlug | src/Core/Service/Article/PostService.php:88-100 | no result exactly when no post has the slug; otherwise a post with that slug, joined, with its tag ids attached |
| Posts.PostService.CreateArticle | src/Core/Service/Article/PostService.php:116-148 | nothing written on invalid input; otherwise the base row, the post row and (for non-empty tags) the selected tags written in that order; the new article is a POST linked to its row, with exactly the selected tags |
| Posts.PostService.UpdateArticle | src/Core/Service/Article/PostService.php:150-183 | nothing written on invalid input; otherwise the base row and the image-filtered post record written under the existing key, then the article's tags deleted and (for non-empty tags) the selected ones inserted, in that order; every article stays linked to its kind's row |
| Posts.PostService.DeleteArticle | src/Core/Service/Article/PostService.php:185-195 | "Article not found!" with nothing changed exactly when the post does not exist; otherwise the post row then the base row removed, tags left in place |
| Discussions.NewDiscussionRow | src/Core/Service/Article/DiscussionService.php:76 | the discussion row holds the filter's values plus the fresh id's storage key, and no other column |
| Discussions.DiscussionService.constructor | src/Core/Service/Article/DiscussionService.php:26-37 | the service works on the given database |
| Discussions.DiscussionService.FetchSingleArticle | src/Core/Service/Article/DiscussionService.php:46-55 | no result exactly when the discussion does not exist; otherwise the joined row with `tags` set to its tag ids |
| Discussions.DiscussionService.CreateArticle | src/Core/Service/Article/DiscussionService.php:57-85 | nothing written on invalid input; otherwise the base row, the discussion row and (whenever tags are set) the selected tags written in that order; the new article is a DISCUSSION with exactly the selected tags |
| Discussions.DiscussionService.UpdateArticle | src/Core/Service/Article/DiscussionService.php:87-108 | nothing written on invalid input; otherwise the base row and the discussion row (the filter's values only) updated under the existing key, then the tags replaced, none when tags are omitted |
| Discussions.DiscussionService.DeleteArticle | src/Core/Service/Article/DiscussionService.php:110-120 | "Article not found!" with nothing changed exactly when the discussion does not exist; otherwise the discussion row then the base row removed |

## Left out

- `fetchAllArticles`, `getPagination` and the `Paginator`: the paginated queries are library query builders, not the services' own logic.
- UUID generation (`Uuid::uuid1`) and the binary layout of `MysqlUuid`: the fresh id is a parameter of `CreateArticle`, and its storage key is an injective wrapper rather than bytes. Uniqueness of the fresh id becomes the precondition `IsFresh`.
- The input filters (`ArticleFilter`, `PostFilter`, `DiscussionFilter`) are not part of this model. Each filter is given as its outcome: the `isValid()` flag, the `getMessages()` map and the `getValues()` record.
- `Upload::uploadImage` is file I/O: each image field's upload result is given as an optional stored reference.
- The mappers' SQL is not modelled: insert, update, delete and select are map operations, and `getBySlug` is a choice among the posts whose joined row has the slug.
- The parent `ArticleService` (`delete`, `getTages`, `getTagIds`) is not part of this model. Base delete removes the base row; `getTages` and `getTagIds` return the article's associations in table order. Whether the database cascades associations on delete is not modelled, and the model does not claim it.
- Transactions and storage failures: the source makes independent sequential writes, so the model has no atomicity to state and no failing write.
- Posts.PostService.UpdateArticle: an update on an id with no row is a precondition (the row exists), because the source dereferences the missing row without any check.
- Discussions.DiscussionService.UpdateArticle: requires the row to exist, for the same reason.
- Articles.CheckFilters: the `||` in the validity check skips the second filter's `isValid()` when the first fails. What the unvalidated filter's `getMessages()` then returns depends on filter internals, so both message maps are taken as given.
- Articles.Database.InsertInto: a duplicate-key insert error is not modelled; an insert under a key already in the table replaces that row. A create requires only that the fresh id's key, `Uuid(Encode(id))`, is unused. A filter that supplies `article_uuid` itself decides the key of the rows a create writes (PHP `+` keeps the filter's value), and when that key names an existing row, for instance another kind's article, the model's create replaces it where the mapper's insert would fail. The identity and kind properties of create are stated only under `LeavesIdentity`, which excludes that case.
- Posts.PostService.FetchSingleArticle: `getTages` receives the textual `$articleId` here but the binary `$article['article_uuid']` in `fetchSingleArticleBySlug`; the mapper is not part of this model, and the model takes it to return the same article's associations for both forms, those stored under the article's storage key.
- Posts.PostService.UpdateArticle: the contract gives the new tables as functions of the old ones. The tag lists, the surviving images and the surviving columns are not repeated there; they are stated by `Tagging.RetaggedLists`, `Posts.UpdatedPostImages` and `Articles.UpdatedArticleKeeps`, each about those same functions. The Discussion update states them directly.
- Posts.PostService.FetchSingleArticleBySlug: which of several posts sharing a slug the mapper returns is left open. The contract says only that the result has the slug.
