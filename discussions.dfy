/** `DiscussionService`: create, update, delete and fetch of discussions over
    the base table, the discussion extension table and the tag associations.
    Discussions have no images, and their tag step runs whenever `tags` is
    set, even to an empty list. */
module Discussions {
  import opened Identity
  import opened Values
  import opened Tables
  import opened Tagging
  import opened Articles

  /** The discussion row `createArticle` inserts: the discussion filter's
      values plus the storage key of the fresh id, the filter's value kept if
      it supplies `article_uuid` itself. */
  function NewDiscussionRow(values: Record, id: TextId): (row: Record)
    ensures row.Keys == values.Keys + {ArticleUuid}
    ensures forall c :: c in values ==> row[c] == values[c]
    ensures ArticleUuid !in values ==> row[ArticleUuid] == Uuid(Encode(id))
  {
    Plus(values, map[ArticleUuid := Uuid(Encode(id))])
  }

  class DiscussionService {
    const db: Database

    constructor (db: Database)
      ensures this.db == db
    {
      this.db := db;
    }

    /** `fetchSingleArticle($articleId)`: the joined row with the ids of its
        tags, or the mapper's falsy result when the discussion does not exist. */
    method FetchSingleArticle(articleId: TextId) returns (discussion: Option<Record>)
      requires db.Valid()
      ensures var key := Uuid(Encode(articleId));
              && (discussion.None? <==> !(key in db.articles && key in db.discussions))
              && (discussion.Some? ==>
                    discussion.value
                    == Join(db.articles[key], db.discussions[key])[Tags := IntList(TagIdsOf(db.articleTags, key))])
    {
      var key := Uuid(Encode(articleId));
      discussion := Lookup(db.articles, db.discussions, key);
      if discussion.Some? {
        discussion := Some(discussion.value[Tags := IntList(TagIdsOf(db.articleTags, key))]);
      }
    }

    /** `createArticle($user, $data)`. Nothing is written unless both filters
        are valid; then the base row, the discussion row and (whenever tags
        were sent) the tag associations are written in that order. */
    method CreateArticle(user: AdminUser, requestedTags: Option<seq<TagId>>,
                         articleFilter: FilterResult, discussionFilter: FilterResult, id: TextId)
      returns (r: Outcome)
      requires db.Valid() && db.IsFresh(Uuid(Encode(id)))
      modifies db
      ensures db.Valid()
      ensures r == CheckFilters(articleFilter, discussionFilter)
      ensures r.Thrown? ==> unchanged(db)
      ensures r.Ok? ==>
                var article := NewArticleRow(articleFilter.values, user, DISCUSSION, id);
                var key := article[ArticleUuid];
                var discussion := NewDiscussionRow(discussionFilter.values, id);
                && db.articles == Insert(old(db.articles), article)
                && db.discussions == Insert(old(db.discussions), discussion)
                && db.posts == old(db.posts)
                && db.tags == old(db.tags)
                && db.articleTags == Tagged(old(db.articleTags), db.tags, requestedTags, key)
                && db.log == (if requestedTags.Some?
                              then old(db.log) + [InsertRow(ArticlesTable, article)]
                                   + [InsertRow(DiscussionsTable, discussion)]
                                   + [InsertTags(key, SelectTags(db.tags, requestedTags.value))]
                              else old(db.log) + [InsertRow(ArticlesTable, article)]
                                   + [InsertRow(DiscussionsTable, discussion)])
      ensures r.Ok? && LeavesIdentity(articleFilter, discussionFilter) ==>
                var key := Uuid(Encode(id));
                && key in db.articles && key in db.discussions
                && KindOf(db.articles[key]) == Some(DISCUSSION)
                && TagIdsOf(db.articleTags, key) == Selected(db.tags, requestedTags)
      ensures old(db.Linked()) && LeavesIdentity(articleFilter, discussionFilter) ==> db.Linked()
    {
      r := CheckFilters(articleFilter, discussionFilter);
      if r.Thrown? {
        return;
      }
      var article := NewArticleRow(articleFilter.values, user, DISCUSSION, id);
      var discussion := NewDiscussionRow(discussionFilter.values, id);
      db.InsertInto(ArticlesTable, article);
      db.InsertInto(DiscussionsTable, discussion);
      if requestedTags.Some? {
        db.InsertTagsFor(requestedTags.value, article[ArticleUuid]);
      }
      if LeavesIdentity(articleFilter, discussionFilter) {
        TaggedLists(old(db.articleTags), db.tags, requestedTags, Uuid(Encode(id)));
        if old(db.Linked()) {
          LinkedAfterCreate(old(db.articles), old(db.discussions), db.posts, DISCUSSION, POST, article, discussion);
        }
      }
    }

    /** `updateArticle($data, $id)` on an existing discussion. Nothing is
        written unless both filters are valid; then the base row is updated
        with the article filter's values and the discussion row with the
        discussion filter's values, under the existing row's storage key; the
        article's tag associations are all deleted and, whenever tags were
        sent, the requested catalog tags inserted. */
    method UpdateArticle(requestedTags: Option<seq<TagId>>, id: TextId,
                         articleFilter: FilterResult, discussionFilter: FilterResult)
      returns (r: Outcome)
      requires db.Valid()
      requires Uuid(Encode(id)) in db.articles && Uuid(Encode(id)) in db.discussions
      modifies db
      ensures db.Valid()
      ensures r == CheckFilters(articleFilter, discussionFilter)
      ensures r.Thrown? ==> unchanged(db)
      ensures r.Ok? ==>
                var article := UpdatedArticleRow(articleFilter.values, Uuid(Encode(id)));
                var key := article[ArticleUuid];
                var discussion := discussionFilter.values;
                && db.articles == UpdateWhere(old(db.articles), key, article)
                && db.discussions == UpdateWhere(old(db.discussions), key, discussion)
                && db.posts == old(db.posts)
                && db.tags == old(db.tags)
                && db.articleTags == Retagged(old(db.articleTags), db.tags, requestedTags, key)
                && db.log == (if requestedTags.Some?
                              then old(db.log) + [UpdateRows(ArticlesTable, article, key)]
                                   + [UpdateRows(DiscussionsTable, discussion, key)]
                                   + [DeleteTags(key)] + [InsertTags(key, SelectTags(db.tags, requestedTags.value))]
                              else old(db.log) + [UpdateRows(ArticlesTable, article, key)]
                                   + [UpdateRows(DiscussionsTable, discussion, key)]
                                   + [DeleteTags(key)])
      ensures r.Ok? ==>
                var key := UpdatedArticleRow(articleFilter.values, Uuid(Encode(id)))[ArticleUuid];
                forall other :: TagIdsOf(db.articleTags, other)
                                == if other == key then Selected(db.tags, requestedTags)
                                   else TagIdsOf(old(db.articleTags), other)
      ensures r.Ok? && LeavesIdentity(articleFilter, discussionFilter) ==>
                var key := Uuid(Encode(id));
                && key in db.articles
                && (forall c :: c in articleFilter.values ==> Column(db.articles[key], c) == Some(articleFilter.values[c]))
                && (forall c :: c !in articleFilter.values ==> Column(db.articles[key], c) == Column(old(db.articles[key]), c))
                && KindOf(db.articles[key]) == KindOf(old(db.articles[key]))
      ensures old(db.Linked()) && LeavesIdentity(articleFilter, discussionFilter) ==> db.Linked()
    {
      var existing := Lookup(db.articles, db.discussions, Uuid(Encode(id)));
      r := CheckFilters(articleFilter, discussionFilter);
      if r.Thrown? {
        return;
      }
      var article := UpdatedArticleRow(articleFilter.values, existing.value[ArticleUuid]);
      var discussion := discussionFilter.values;
      var key := article[ArticleUuid];
      db.UpdateIn(ArticlesTable, article, key);
      db.UpdateIn(DiscussionsTable, discussion, key);
      db.DeleteTagsOf(key);
      if requestedTags.Some? {
        db.InsertTagsFor(requestedTags.value, key);
      }
      RetaggedLists(old(db.articleTags), db.tags, requestedTags, key);
      if LeavesIdentity(articleFilter, discussionFilter) {
        UpdatedArticleKeeps(old(db.articles), key, articleFilter.values);
        if old(db.Linked()) {
          LinkedAfterUpdate(old(db.articles), old(db.discussions), db.posts, DISCUSSION, POST, key, article, discussion);
        }
      }
    }

    /** `deleteArticle($id)`: "Article not found!" when the discussion does not
        exist; otherwise the discussion row, then the base row. Tag
        associations are left as they are. */
    method DeleteArticle(id: TextId) returns (r: Outcome)
      requires db.Valid()
      modifies db
      ensures db.Valid()
      ensures var key := Uuid(Encode(id));
              && (r.Thrown? <==> !(key in old(db.articles) && key in old(db.discussions)))
              && (r.Thrown? ==> r.error == NotFound(ArticleNotFound) && unchanged(db))
              && (r.Ok? ==>
                    && db.discussions == DeleteWhere(old(db.discussions), key)
                    && db.articles == DeleteWhere(old(db.articles), key)
                    && db.posts == old(db.posts)
                    && db.articleTags == old(db.articleTags)
                    && db.tags == old(db.tags)
                    && db.log == old(db.log) + [DeleteRows(DiscussionsTable, key), DeleteRows(ArticlesTable, key)])
      ensures old(db.Linked()) ==> db.Linked()
    {
      var discussion := Lookup(db.articles, db.discussions, Uuid(Encode(id)));
      if discussion.None? {
        return Thrown(NotFound(ArticleNotFound));
      }
      var key := discussion.value[ArticleUuid];
      db.DeleteFrom(DiscussionsTable, key);
      // The inherited ArticleService::delete removes the base row.
      db.DeleteFrom(ArticlesTable, key);
      r := Ok;
      if old(db.Linked()) {
        LinkedAfterDelete(old(db.articles), old(db.discussions), db.posts, DISCUSSION, POST, key);
      }
    }
  }
}
