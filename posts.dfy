/** `PostService`: create, update, delete and fetch of blog posts over the base
    table, the post extension table and the tag associations. */
module Posts {
  import opened Identity
  import opened Values
  import opened Tables
  import opened Tagging
  import opened Articles

  /** What `uploadImage($data, $field)` returned: a stored image reference, or nothing. */
  type Upload = Option<string>

  function ImageValue(upload: Upload): Value
  {
    match upload
    case Some(ref) => Str(ref)
    case None => Null
  }

  /** `isset($data['tags']) && $data['tags']`: tags were sent and the list is non-empty. */
  predicate InsertsTags(requested: Option<seq<TagId>>)
  {
    requested.Some? && requested.value != []
  }

  /** The tag request `createArticle` and `updateArticle` make: the requested
      ids when the tag step runs, nothing when it is skipped. */
  function TagRequest(requested: Option<seq<TagId>>): (request: Option<seq<TagId>>)
    ensures request.Some? <==> InsertsTags(requested)
    ensures request.Some? ==> request == requested
  {
    if InsertsTags(requested) then requested else None
  }

  /** The post row `createArticle` inserts: the post filter's values plus both
      upload results and the base row's storage key, the filter's value kept
      for any of these columns it supplies itself. */
  function NewPostRow(values: Record, featured: Upload, main: Upload, key: Value): (row: Record)
    ensures row.Keys == values.Keys + {FeaturedImg, MainImg, ArticleUuid}
    ensures forall c :: c in values ==> row[c] == values[c]
    ensures FeaturedImg !in values ==> row[FeaturedImg] == ImageValue(featured)
    ensures MainImg !in values ==> row[MainImg] == ImageValue(main)
    ensures ArticleUuid !in values ==> row[ArticleUuid] == key
  {
    Plus(values, map[FeaturedImg := ImageValue(featured), MainImg := ImageValue(main), ArticleUuid := key])
  }

  /** What an image column of the update record holds: the filter's value if
      it has one, else the upload result; dropped when that is falsy. */
  function KeptImage(values: Record, field: Field, upload: Upload): Option<Value>
  {
    var v := if field in values then values[field] else ImageValue(upload);
    if Truthy(v) then Some(v) else None
  }

  /** A record without those image columns whose value is falsy. */
  function WithoutEmptyImages(proposed: Record): Record
  {
    proposed - EmptyImages(proposed)
  }

  /** The image columns of a record whose value is falsy. */
  function EmptyImages(proposed: Record): set<Field>
  {
    (if FeaturedImg in proposed && !Truthy(proposed[FeaturedImg]) then {FeaturedImg} else {})
    + (if MainImg in proposed && !Truthy(proposed[MainImg]) then {MainImg} else {})
  }

  /** Dropping empty images keeps every other column and each image column
      exactly when its value is truthy. */
  lemma WithoutEmptyImagesColumns(proposed: Record)
    ensures forall c :: c != FeaturedImg && c != MainImg ==>
              Column(WithoutEmptyImages(proposed), c) == Column(proposed, c)
    ensures forall c :: c == FeaturedImg || c == MainImg ==>
              Column(WithoutEmptyImages(proposed), c)
              == if c in proposed && Truthy(proposed[c]) then Some(proposed[c]) else None
  {
  }

  /** The record of the post filter's values and both upload results, before
      empty images are dropped. */
  function ProposedPost(values: Record, featured: Upload, main: Upload): Record
  {
    Plus(values, map[FeaturedImg := ImageValue(featured), MainImg := ImageValue(main)])
  }

  /** The post record `updateArticle` writes: the post filter's values and the
      two upload results, without any image column whose value is falsy. */
  function PostChanges(values: Record, featured: Upload, main: Upload): (post: Record)
    ensures values.Keys - {FeaturedImg, MainImg} <= post.Keys <= values.Keys + {FeaturedImg, MainImg}
  {
    WithoutEmptyImages(ProposedPost(values, featured, main))
  }

  /** The post update record keeps every column of the filter's values other
      than the images, and holds an image column only when the value it would
      get (the filter's, else the upload's) is truthy. */
  lemma PostChangesColumns(values: Record, featured: Upload, main: Upload)
    ensures forall c :: c != FeaturedImg && c != MainImg ==>
              Column(PostChanges(values, featured, main), c) == Column(values, c)
    ensures Column(PostChanges(values, featured, main), FeaturedImg) == KeptImage(values, FeaturedImg, featured)
    ensures Column(PostChanges(values, featured, main), MainImg) == KeptImage(values, MainImg, main)
  {
    WithoutEmptyImagesColumns(ProposedPost(values, featured, main));
  }

  /** The two `unset` steps of `updateArticle`: an image column whose value
      is falsy is removed, so the update leaves the stored image alone. */
  method DropEmptyImages(proposed: Record) returns (post: Record)
    requires FeaturedImg in proposed && MainImg in proposed
    ensures post == WithoutEmptyImages(proposed)
  {
    post := proposed;
    if !Truthy(post[FeaturedImg]) {
      post := post - {FeaturedImg};
    }
    if !Truthy(post[MainImg]) {
      post := post - {MainImg};
    }
  }

  /** Update never forces a re-upload: with no image column from the filter,
      an empty upload leaves the stored reference as it was and a non-empty
      one overwrites it. */
  lemma ImagesOnUpdate(stored: Record, values: Record, featured: Upload, main: Upload)
    requires FeaturedImg !in values && MainImg !in values
    ensures var after := Plus(PostChanges(values, featured, main), stored);
            && Column(after, FeaturedImg)
               == (if Truthy(ImageValue(featured)) then Some(ImageValue(featured)) else Column(stored, FeaturedImg))
            && Column(after, MainImg)
               == (if Truthy(ImageValue(main)) then Some(ImageValue(main)) else Column(stored, MainImg))
  {
    PostChangesColumns(values, featured, main);
  }

  /** The image columns of a stored post after `updateArticle`: a new upload
      replaces the reference, an empty one leaves it. */
  lemma UpdatedPostImages(posts: Table, key: Value, values: Record, featured: Upload, main: Upload)
    requires KeyedByUuid(posts) && key in posts
    requires ArticleUuid !in values && FeaturedImg !in values && MainImg !in values
    ensures var after := UpdateWhere(posts, key, PostChanges(values, featured, main));
            && key in after
            && Column(after[key], FeaturedImg)
               == (if Truthy(ImageValue(featured)) then Some(ImageValue(featured)) else Column(posts[key], FeaturedImg))
            && Column(after[key], MainImg)
               == (if Truthy(ImageValue(main)) then Some(ImageValue(main)) else Column(posts[key], MainImg))
  {
    PostChangesColumns(values, featured, main);
    ImagesOnUpdate(posts[key], values, featured, main);
  }

  /** Updating a post under its own key, with filters that leave `type` and
      the storage key alone, keeps every article linked to its extension row. */
  lemma UpdatedPostLinked(articles: Table, posts: Table, discussions: Table, key: Value,
                          articleFilter: FilterResult, postFilter: FilterResult, featured: Upload, main: Upload)
    requires KeyedByUuid(articles) && KeyedByUuid(posts)
    requires ExtensionLinked(articles, posts, POST) && ExtensionLinked(articles, discussions, DISCUSSION)
    requires LeavesIdentity(articleFilter, postFilter)
    ensures var articles' := UpdateWhere(articles, key, UpdatedArticleRow(articleFilter.values, key));
            && ExtensionLinked(articles', UpdateWhere(posts, key, PostChanges(postFilter.values, featured, main)), POST)
            && ExtensionLinked(articles', discussions, DISCUSSION)
  {
    var changes := PostChanges(postFilter.values, featured, main);
    PostChangesColumns(postFilter.values, featured, main);
    assert Column(changes, ArticleUuid) == Column(postFilter.values, ArticleUuid);
    LinkedAfterUpdate(articles, posts, discussions, POST, DISCUSSION, key,
                      UpdatedArticleRow(articleFilter.values, key), changes);
  }

  /** The row `getBySlug` looks for. */
  predicate HasSlug(row: Record, slug: string)
  {
    Slug in row && row[Slug] == Str(slug)
  }

  class PostService {
    const db: Database

    constructor (db: Database)
      ensures this.db == db
    {
      this.db := db;
    }

    /** `$article['tags'] = []` followed by the `foreach` that appends the id
        of every association `getTages($key)` returns. */
    method AttachTags(row: Record, key: Value) returns (article: Record)
      ensures article == row[Tags := IntList(TagIdsOf(db.articleTags, key))]
    {
      article := row[Tags := IntList([])];
      var rows := TagRows(db.articleTags, key);
      var i := 0;
      while i < |rows|
        invariant 0 <= i <= |rows|
        invariant article == row[Tags := IntList(TagIds(rows[..i]))]
      {
        assert TagIds(rows[..i + 1]) == TagIds(rows[..i]) + [rows[i].tagId];
        article := article[Tags := IntList(article[Tags].items + [rows[i].tagId])];
        i := i + 1;
      }
      assert rows[..i] == rows;
    }

    /** `fetchSingleArticle($articleId)`: the joined row with its tag ids, or
        the mapper's falsy result when the post does not exist. */
    method FetchSingleArticle(articleId: TextId) returns (article: Option<Record>)
      requires db.Valid()
      ensures var key := Uuid(Encode(articleId));
              && (article.None? <==> !(key in db.articles && key in db.posts))
              && (article.Some? ==>
                    article.value == Join(db.articles[key], db.posts[key])[Tags := IntList(TagIdsOf(db.articleTags, key))])
    {
      var key := Uuid(Encode(articleId));
      article := Lookup(db.articles, db.posts, key);
      if article.Some? {
        var tagged := AttachTags(article.value, key);
        article := Some(tagged);
      }
    }

    /** `fetchSingleArticleBySlug($slug)`: a post whose slug matches, with its
        tag ids, or the falsy result when none does. */
    method FetchSingleArticleBySlug(slug: string) returns (article: Option<Record>)
      requires db.Valid()
      ensures article.None? <==>
                forall k :: k in db.articles && k in db.posts ==> !HasSlug(Join(db.articles[k], db.posts[k]), slug)
      ensures article.Some? ==>
                && ArticleUuid in article.value
                && var key := article.value[ArticleUuid];
                && key in db.articles && key in db.posts
                && HasSlug(Join(db.articles[key], db.posts[key]), slug)
                && article.value == Join(db.articles[key], db.posts[key])[Tags := IntList(TagIdsOf(db.articleTags, key))]
    {
      var matches := set k | k in db.articles && k in db.posts && HasSlug(Join(db.articles[k], db.posts[k]), slug);
      if matches == {} {
        forall k | k in db.articles && k in db.posts
          ensures !HasSlug(Join(db.articles[k], db.posts[k]), slug)
        {
          assert k !in matches;
        }
        return None;
      }
      var key :| key in matches;
      var row := Join(db.articles[key], db.posts[key]);
      var tagged := AttachTags(row, row[ArticleUuid]);
      article := Some(tagged);
    }

    /** `createArticle($user, $data)`. Nothing is written unless both filters
        are valid; then the base row, the post row and (for a non-empty tag
        list) the tag associations are written in that order, all under the
        storage key of the freshly allocated id. */
    method CreateArticle(user: AdminUser, requestedTags: Option<seq<TagId>>,
                         articleFilter: FilterResult, postFilter: FilterResult,
                         featured: Upload, main: Upload, id: TextId)
      returns (r: Outcome)
      requires db.Valid() && db.IsFresh(Uuid(Encode(id)))
      modifies db
      ensures db.Valid()
      ensures r == CheckFilters(articleFilter, postFilter)
      ensures r.Thrown? ==> unchanged(db)
      ensures r.Ok? ==>
                var article := NewArticleRow(articleFilter.values, user, POST, id);
                var key := article[ArticleUuid];
                var post := NewPostRow(postFilter.values, featured, main, key);
                && db.articles == Insert(old(db.articles), article)
                && db.posts == Insert(old(db.posts), post)
                && db.discussions == old(db.discussions)
                && db.tags == old(db.tags)
                && db.articleTags == Tagged(old(db.articleTags), db.tags, TagRequest(requestedTags), key)
                && db.log == (if InsertsTags(requestedTags)
                              then old(db.log) + [InsertRow(ArticlesTable, article)] + [InsertRow(PostsTable, post)]
                                   + [InsertTags(key, SelectTags(db.tags, requestedTags.value))]
                              else old(db.log) + [InsertRow(ArticlesTable, article)] + [InsertRow(PostsTable, post)])
      ensures r.Ok? && LeavesIdentity(articleFilter, postFilter) ==>
                var key := Uuid(Encode(id));
                && key in db.articles && key in db.posts
                && KindOf(db.articles[key]) == Some(POST)
                && TagIdsOf(db.articleTags, key) == Selected(db.tags, TagRequest(requestedTags))
      ensures old(db.Linked()) && LeavesIdentity(articleFilter, postFilter) ==> db.Linked()
    {
      r := CheckFilters(articleFilter, postFilter);
      if r.Thrown? {
        return;
      }
      var article := NewArticleRow(articleFilter.values, user, POST, id);
      var post := NewPostRow(postFilter.values, featured, main, article[ArticleUuid]);
      db.InsertInto(ArticlesTable, article);
      db.InsertInto(PostsTable, post);
      if InsertsTags(requestedTags) {
        db.InsertTagsFor(requestedTags.value, article[ArticleUuid]);
      }
      if LeavesIdentity(articleFilter, postFilter) {
        TaggedLists(old(db.articleTags), db.tags, TagRequest(requestedTags), Uuid(Encode(id)));
        if old(db.Linked()) {
          LinkedAfterCreate(old(db.articles), old(db.posts), db.discussions, POST, DISCUSSION, article, post);
        }
      }
    }

    /** `updateArticle($data, $id)` on an existing post. Nothing is written
        unless both filters are valid; then the base row and the post row are
        updated under the existing row's storage key, the article's tag
        associations are all deleted, and the requested catalog tags are
        inserted when the tag list is non-empty. What the new state means is
        proved about these functions: `RetaggedLists` (the tag lists),
        `UpdatedPostImages` (images without a new upload survive) and
        `UpdatedArticleKeeps` (unsupplied columns and the kind survive). */
    method UpdateArticle(requestedTags: Option<seq<TagId>>, id: TextId,
                         articleFilter: FilterResult, postFilter: FilterResult,
                         featured: Upload, main: Upload)
      returns (r: Outcome)
      requires db.Valid()
      requires Uuid(Encode(id)) in db.articles && Uuid(Encode(id)) in db.posts
      modifies db
      ensures db.Valid()
      ensures r == CheckFilters(articleFilter, postFilter)
      ensures r.Thrown? ==> unchanged(db)
      ensures r.Ok? ==>
                var article := UpdatedArticleRow(articleFilter.values, Uuid(Encode(id)));
                var key := article[ArticleUuid];
                var post := PostChanges(postFilter.values, featured, main);
                && db.articles == UpdateWhere(old(db.articles), key, article)
                && db.posts == UpdateWhere(old(db.posts), key, post)
                && db.discussions == old(db.discussions)
                && db.tags == old(db.tags)
                && db.articleTags == Retagged(old(db.articleTags), db.tags, TagRequest(requestedTags), key)
                && db.log == (if InsertsTags(requestedTags)
                              then old(db.log) + [UpdateRows(ArticlesTable, article, key)] + [UpdateRows(PostsTable, post, key)]
                                   + [DeleteTags(key)] + [InsertTags(key, SelectTags(db.tags, requestedTags.value))]
                              else old(db.log) + [UpdateRows(ArticlesTable, article, key)] + [UpdateRows(PostsTable, post, key)]
                                   + [DeleteTags(key)])
      ensures old(db.Linked()) && LeavesIdentity(articleFilter, postFilter) ==> db.Linked()
    {
      var existing := Lookup(db.articles, db.posts, Uuid(Encode(id)));
      r := CheckFilters(articleFilter, postFilter);
      if r.Thrown? {
        return;
      }
      var article := UpdatedArticleRow(articleFilter.values, existing.value[ArticleUuid]);
      // The stored image survives an edit that uploads no new one.
      var post := DropEmptyImages(ProposedPost(postFilter.values, featured, main));
      assert post == PostChanges(postFilter.values, featured, main);
      var key := article[ArticleUuid];
      db.UpdateIn(ArticlesTable, article, key);
      db.UpdateIn(PostsTable, post, key);
      db.DeleteTagsOf(key);
      if InsertsTags(requestedTags) {
        db.InsertTagsFor(requestedTags.value, key);
      }
      if LeavesIdentity(articleFilter, postFilter) && old(db.Linked()) {
        UpdatedPostLinked(old(db.articles), old(db.posts), db.discussions, key, articleFilter, postFilter, featured, main);
      }
    }

    /** `deleteArticle($id)`: "Article not found!" when the post does not
        exist; otherwise the post row, then the base row. Tag associations
        are left as they are. */
    method DeleteArticle(id: TextId) returns (r: Outcome)
      requires db.Valid()
      modifies db
      ensures db.Valid()
      ensures var key := Uuid(Encode(id));
              && (r.Thrown? <==> !(key in old(db.articles) && key in old(db.posts)))
              && (r.Thrown? ==> r.error == NotFound(ArticleNotFound) && unchanged(db))
              && (r.Ok? ==>
                    && db.posts == DeleteWhere(old(db.posts), key)
                    && db.articles == DeleteWhere(old(db.articles), key)
                    && db.discussions == old(db.discussions)
                    && db.articleTags == old(db.articleTags)
                    && db.tags == old(db.tags)
                    && db.log == old(db.log) + [DeleteRows(PostsTable, key), DeleteRows(ArticlesTable, key)])
      ensures old(db.Linked()) ==> db.Linked()
    {
      var post := Lookup(db.articles, db.posts, Uuid(Encode(id)));
      if post.None? {
        return Thrown(NotFound(ArticleNotFound));
      }
      var key := post.value[ArticleUuid];
      db.DeleteFrom(PostsTable, key);
      // The inherited ArticleService::delete removes the base row.
      db.DeleteFrom(ArticlesTable, key);
      r := Ok;
      if old(db.Linked()) {
        LinkedAfterDelete(old(db.articles), old(db.posts), db.discussions, POST, DISCUSSION, key);
      }
    }
  }
}
