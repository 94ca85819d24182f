/** What both article services share: the filter results they consume, the
    exceptions they throw, the validity check, the base rows they build, and
    the database they write to. */
module Articles {
  import opened Identity
  import opened Values
  import opened Tables
  import opened Tagging

  /** `getMessages()`: field name to validator name to message. */
  type Messages = map<string, map<string, string>>

  /** What an input filter reports after `setData($data)`: `isValid()`,
      `getMessages()` and `getValues()`. */
  datatype FilterResult = FilterResult(isValid: bool, messages: Messages, values: Record)

  /** The authenticated admin user passed to `createArticle`. */
  datatype AdminUser = AdminUser(adminUserUuid: Value)

  /** The exceptions the services throw. */
  datatype ServiceError =
    | FilterException(messages: Messages)
    | NotFound(message: string)

  /** How a service operation ends: normally, or by throwing. */
  datatype Outcome = Ok | Thrown(error: ServiceError)

  const ArticleNotFound := "Article not found!"

  /** Both filters must be valid; otherwise a `FilterException` carries the
      left-biased union of the two message maps: every field either filter
      reports, with the article filter's messages for a field both report. */
  function CheckFilters(articleFilter: FilterResult, kindFilter: FilterResult): (r: Outcome)
    ensures r.Thrown? <==> !articleFilter.isValid || !kindFilter.isValid
    ensures r.Thrown? ==> r.error.FilterException?
    ensures r.Thrown? ==> r.error.messages.Keys == articleFilter.messages.Keys + kindFilter.messages.Keys
    ensures r.Thrown? ==> forall f :: f in articleFilter.messages ==> r.error.messages[f] == articleFilter.messages[f]
    ensures r.Thrown? ==> forall f :: f in kindFilter.messages && f !in articleFilter.messages ==>
                            r.error.messages[f] == kindFilter.messages[f]
  {
    if !articleFilter.isValid || !kindFilter.isValid then
      Thrown(FilterException(Plus(articleFilter.messages, kindFilter.messages)))
    else
      Ok
  }

  /** The base row `createArticle` inserts: the article filter's values plus
      owner, kind, textual id and storage key. PHP's `+` keeps the filter's
      value for any of these four columns the filter itself supplies. */
  function NewArticleRow(values: Record, user: AdminUser, kind: ArticleType, id: TextId): (row: Record)
    ensures row.Keys == values.Keys + {AdminUserUuid, Type, ArticleId, ArticleUuid}
    ensures forall c :: c in values ==> row[c] == values[c]
    ensures AdminUserUuid !in values ==> row[AdminUserUuid] == user.adminUserUuid
    ensures Type !in values ==> row[Type] == Kind(kind)
    ensures ArticleId !in values ==> row[ArticleId] == Str(id)
    ensures ArticleUuid !in values ==> row[ArticleUuid] == Uuid(Encode(id))
  {
    Plus(values, map[AdminUserUuid := user.adminUserUuid, Type := Kind(kind),
                     ArticleId := Str(id), ArticleUuid := Uuid(Encode(id))])
  }

  /** The base record `updateArticle` writes: the article filter's values plus
      the existing row's storage key, and nothing else (no kind, owner or
      textual id). */
  function UpdatedArticleRow(values: Record, key: Value): (row: Record)
    ensures row.Keys == values.Keys + {ArticleUuid}
    ensures forall c :: c in values ==> row[c] == values[c]
    ensures ArticleUuid !in values ==> row[ArticleUuid] == key
  {
    Plus(values, map[ArticleUuid := key])
  }

  /** The filters supply none of the columns that carry the article's identity
      and kind, so PHP's `+` keeps the values the service stamps. */
  predicate LeavesIdentity(articleFilter: FilterResult, kindFilter: FilterResult)
  {
    Type !in articleFilter.values && ArticleUuid !in articleFilter.values && ArticleUuid !in kindFilter.values
  }

  /** The kind a base row is stamped with, if any. */
  function KindOf(row: Record): Option<ArticleType>
  {
    if Type in row && row[Type].Kind? then Some(row[Type].kind) else None
  }

  /** Overwriting columns other than `type` keeps a base row's kind. */
  lemma KindOfUpdated(changes: Record, row: Record)
    requires Type !in changes
    ensures KindOf(Plus(changes, row)) == KindOf(row)
  {
  }

  /** The stored base row after an update under its own key: the filter's
      values overwrite their columns, every other column (owner, textual id,
      kind) keeps its stored value. */
  lemma UpdatedArticleKeeps(articles: Table, key: Value, values: Record)
    requires KeyedByUuid(articles) && key in articles && ArticleUuid !in values
    ensures var after := UpdateWhere(articles, key, UpdatedArticleRow(values, key));
            && key in after
            && (forall c :: c in values ==> Column(after[key], c) == Some(values[c]))
            && (forall c :: c !in values ==> Column(after[key], c) == Column(articles[key], c))
            && (Type !in values ==> KindOf(after[key]) == KindOf(articles[key]))
  {
  }

  /** An extension table has a row for a key exactly when the base table has
      a row of that kind for it. */
  ghost predicate ExtensionLinked(articles: Table, extension: Table, kind: ArticleType)
  {
    && (forall k :: k in extension ==> k in articles)
    && (forall k :: k in articles ==> (k in extension <==> KindOf(articles[k]) == Some(kind)))
  }

  /** Inserting a new article of `kind` together with its extension row keeps
      both kinds linked. */
  lemma LinkedAfterCreate(articles: Table, extension: Table, other: Table, kind: ArticleType, otherKind: ArticleType,
                          article: Record, row: Record)
    requires ExtensionLinked(articles, extension, kind) && ExtensionLinked(articles, other, otherKind)
    requires kind != otherKind
    requires ArticleUuid in article && ArticleUuid in row && row[ArticleUuid] == article[ArticleUuid]
    requires article[ArticleUuid] !in other && KindOf(article) == Some(kind)
    ensures ExtensionLinked(Insert(articles, article), Insert(extension, row), kind)
    ensures ExtensionLinked(Insert(articles, article), other, otherKind)
  {
  }

  /** Updating an article and its extension row under the article's own key,
      with no change to `type`, keeps both kinds linked. */
  lemma LinkedAfterUpdate(articles: Table, extension: Table, other: Table, kind: ArticleType, otherKind: ArticleType,
                          key: Value, article: Record, changes: Record)
    requires KeyedByUuid(articles) && KeyedByUuid(extension)
    requires ExtensionLinked(articles, extension, kind) && ExtensionLinked(articles, other, otherKind)
    requires ArticleUuid in article && article[ArticleUuid] == key && Type !in article && ArticleUuid !in changes
    ensures ExtensionLinked(UpdateWhere(articles, key, article), UpdateWhere(extension, key, changes), kind)
    ensures ExtensionLinked(UpdateWhere(articles, key, article), other, otherKind)
  {
    var articles' := UpdateWhere(articles, key, article);
    if key in articles {
      KindOfUpdated(article, articles[key]);
      assert articles'.Keys == articles.Keys;
      assert articles'[key] == Plus(article, articles[key]);
    }
  }

  /** Deleting an article's extension row and its base row keeps both kinds linked. */
  lemma LinkedAfterDelete(articles: Table, extension: Table, other: Table, kind: ArticleType, otherKind: ArticleType,
                          key: Value)
    requires ExtensionLinked(articles, extension, kind) && ExtensionLinked(articles, other, otherKind)
    requires kind != otherKind && key in extension
    ensures ExtensionLinked(DeleteWhere(articles, key), DeleteWhere(extension, key), kind)
    ensures ExtensionLinked(DeleteWhere(articles, key), other, otherKind)
  {
  }

  /** The tables that hold one row per article. */
  datatype RowTable = ArticlesTable | PostsTable | DiscussionsTable

  /** One mapper call, as recorded in the database's write log. */
  datatype Write =
    | InsertRow(table: RowTable, row: Record)
    | UpdateRows(table: RowTable, changes: Record, where: Value)
    | DeleteRows(table: RowTable, where: Value)
    | DeleteTags(article: Value)
    | InsertTags(article: Value, tagIds: seq<TagId>)

  /** The tables both services write through their mappers. */
  class Database {
    var articles: Table
    var posts: Table
    var discussions: Table
    var articleTags: seq<ArticleTag>
    /** The tag catalog, by id, in the order `select` returns it. */
    var tags: seq<TagId>
    /** Every mapper write, in the order it was made. */
    ghost var log: seq<Write>

    ghost predicate Valid()
      reads this
    {
      KeyedByUuid(articles) && KeyedByUuid(posts) && KeyedByUuid(discussions)
    }

    /** Every article has exactly the extension row its kind calls for. */
    ghost predicate Linked()
      reads this
    {
      ExtensionLinked(articles, posts, POST) && ExtensionLinked(articles, discussions, DISCUSSION)
    }

    /** No table mentions the key yet: what the UUID library's uniqueness
        guarantees for a freshly allocated id. */
    ghost predicate IsFresh(key: Value)
      reads this
    {
      && key !in articles && key !in posts && key !in discussions
      && forall i :: 0 <= i < |articleTags| ==> articleTags[i].articleUuid != key
    }

    constructor (catalog: seq<TagId>)
      ensures Valid() && Linked()
      ensures articles == map[] && posts == map[] && discussions == map[]
      ensures articleTags == [] && tags == catalog && log == []
    {
      articles, posts, discussions := map[], map[], map[];
      articleTags, tags := [], catalog;
      log := [];
    }

    /** A mapper's `insert($row)` on one of the row tables. */
    method InsertInto(table: RowTable, row: Record)
      requires Valid() && ArticleUuid in row
      modifies this
      ensures Valid()
      ensures articles == if table == ArticlesTable then Insert(old(articles), row) else old(articles)
      ensures posts == if table == PostsTable then Insert(old(posts), row) else old(posts)
      ensures discussions == if table == DiscussionsTable then Insert(old(discussions), row) else old(discussions)
      ensures articleTags == old(articleTags) && tags == old(tags)
      ensures log == old(log) + [InsertRow(table, row)]
    {
      log := log + [InsertRow(table, row)];
      match table
      case ArticlesTable => articles := Insert(articles, row);
      case PostsTable => posts := Insert(posts, row);
      case DiscussionsTable => discussions := Insert(discussions, row);
    }

    /** A mapper's `update($changes, ['article_uuid' => $where])`. */
    method UpdateIn(table: RowTable, changes: Record, where: Value)
      requires Valid()
      modifies this
      ensures Valid()
      ensures articles == if table == ArticlesTable then UpdateWhere(old(articles), where, changes) else old(articles)
      ensures posts == if table == PostsTable then UpdateWhere(old(posts), where, changes) else old(posts)
      ensures discussions == if table == DiscussionsTable then UpdateWhere(old(discussions), where, changes)
                             else old(discussions)
      ensures articleTags == old(articleTags) && tags == old(tags)
      ensures log == old(log) + [UpdateRows(table, changes, where)]
    {
      log := log + [UpdateRows(table, changes, where)];
      match table
      case ArticlesTable => articles := UpdateWhere(articles, where, changes);
      case PostsTable => posts := UpdateWhere(posts, where, changes);
      case DiscussionsTable => discussions := UpdateWhere(discussions, where, changes);
    }

    /** A mapper's `delete(['article_uuid' => $where])`; on the base table
        this is also what the inherited `ArticleService::delete` does. */
    method DeleteFrom(table: RowTable, where: Value)
      requires Valid()
      modifies this
      ensures Valid()
      ensures articles == if table == ArticlesTable then DeleteWhere(old(articles), where) else old(articles)
      ensures posts == if table == PostsTable then DeleteWhere(old(posts), where) else old(posts)
      ensures discussions == if table == DiscussionsTable then DeleteWhere(old(discussions), where) else old(discussions)
      ensures articleTags == old(articleTags) && tags == old(tags)
      ensures log == old(log) + [DeleteRows(table, where)]
    {
      log := log + [DeleteRows(table, where)];
      match table
      case ArticlesTable => articles := DeleteWhere(articles, where);
      case PostsTable => posts := DeleteWhere(posts, where);
      case DiscussionsTable => discussions := DeleteWhere(discussions, where);
    }

    /** `ArticleTagsMapper::delete(['article_uuid' => $article])`. */
    method DeleteTagsOf(article: Value)
      modifies this
      ensures articleTags == Detach(old(articleTags), article)
      ensures articles == old(articles) && posts == old(posts) && discussions == old(discussions) && tags == old(tags)
      ensures log == old(log) + [DeleteTags(article)]
    {
      articleTags := Detach(articleTags, article);
      log := log + [DeleteTags(article)];
    }

    /** `select(['tag_id' => $requested])` on the tag catalog followed by
        `insertTags($tags, $article)`. */
    method InsertTagsFor(requested: seq<TagId>, article: Value)
      modifies this
      ensures articleTags == old(articleTags) + Associate(SelectTags(old(tags), requested), article)
      ensures articles == old(articles) && posts == old(posts) && discussions == old(discussions) && tags == old(tags)
      ensures log == old(log) + [InsertTags(article, SelectTags(old(tags), requested))]
    {
      var selected := SelectTags(tags, requested);
      articleTags := articleTags + Associate(selected, article);
      log := log + [InsertTags(article, selected)];
    }
  }
}
