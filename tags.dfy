/** The tag catalog and the article-tag association table: selecting catalog
    tags by id, `insertTags`, deleting an article's associations, and reading
    them back in association order. */
module Tagging {
  import opened Values

  type TagId = int

  /** A row of the association table. */
  datatype ArticleTag = ArticleTag(articleUuid: Value, tagId: TagId)

  /** `select(['tag_id' => $requested])` on the catalog: the catalog tags whose
      id was requested, in catalog order. Requested ids the catalog lacks are
      dropped. */
  function SelectTags(catalog: seq<TagId>, requested: seq<TagId>): (r: seq<TagId>)
    ensures forall t :: t in r <==> t in catalog && t in requested
    ensures |r| <= |catalog|
  {
    if catalog == [] then []
    else if catalog[0] in requested then [catalog[0]] + SelectTags(catalog[1..], requested)
    else SelectTags(catalog[1..], requested)
  }

  /** `insertTags($tags, $uuid)`: one association per selected tag, in order. */
  function Associate(ids: seq<TagId>, article: Value): (r: seq<ArticleTag>)
    ensures |r| == |ids|
    ensures forall i :: 0 <= i < |ids| ==> r[i] == ArticleTag(article, ids[i])
  {
    if ids == [] then [] else [ArticleTag(article, ids[0])] + Associate(ids[1..], article)
  }

  /** `delete(['article_uuid' => $uuid])` on the association table: every
      association of the article goes, the others stay in order. */
  function Detach(assoc: seq<ArticleTag>, article: Value): (r: seq<ArticleTag>)
    ensures forall a :: a in r <==> a in assoc && a.articleUuid != article
    ensures |r| <= |assoc|
  {
    if assoc == [] then []
    else if assoc[0].articleUuid == article then Detach(assoc[1..], article)
    else [assoc[0]] + Detach(assoc[1..], article)
  }

  /** The associations of one article, in association order (`getTages`). */
  function TagRows(assoc: seq<ArticleTag>, article: Value): (r: seq<ArticleTag>)
    ensures forall a :: a in r <==> a in assoc && a.articleUuid == article
    ensures |r| <= |assoc|
  {
    if assoc == [] then []
    else if assoc[0].articleUuid == article then [assoc[0]] + TagRows(assoc[1..], article)
    else TagRows(assoc[1..], article)
  }

  /** The tag ids of some association rows, row by row. */
  function TagIds(rows: seq<ArticleTag>): (ids: seq<TagId>)
    ensures |ids| == |rows|
    ensures forall i :: 0 <= i < |rows| ==> ids[i] == rows[i].tagId
  {
    if rows == [] then [] else [rows[0].tagId] + TagIds(rows[1..])
  }

  /** The tag ids an article is associated with, in association order (`getTagIds`):
      a tag id is listed exactly when the article has an association with it. */
  function TagIdsOf(assoc: seq<ArticleTag>, article: Value): (ids: seq<TagId>)
    ensures forall t :: t in ids <==> ArticleTag(article, t) in assoc
  {
    TagIds(TagRows(assoc, article))
  }

  lemma {:induction false} TagRowsAppend(a: seq<ArticleTag>, b: seq<ArticleTag>, article: Value)
    ensures TagRows(a + b, article) == TagRows(a, article) + TagRows(b, article)
  {
    if a == [] {
      assert a + b == b;
    } else {
      assert (a + b)[1..] == a[1..] + b;
      TagRowsAppend(a[1..], b, article);
    }
  }

  /** The rows `insertTags` added for `article` read back as exactly the
      inserted ids; other articles see none of them. */
  lemma {:induction false} TagRowsOfAssociate(ids: seq<TagId>, article: Value, other: Value)
    ensures TagRows(Associate(ids, article), other) == if other == article then Associate(ids, article) else []
  {
    if ids != [] {
      var r := Associate(ids, article);
      assert r[1..] == Associate(ids[1..], article);
      TagRowsOfAssociate(ids[1..], article, other);
    }
  }

  /** After deleting an article's associations it has none left, and every
      other article keeps its own in the same order. */
  lemma {:induction false} TagRowsOfDetach(assoc: seq<ArticleTag>, article: Value, other: Value)
    ensures TagRows(Detach(assoc, article), other) == if other == article then [] else TagRows(assoc, other)
  {
    if assoc != [] {
      TagRowsOfDetach(assoc[1..], article, other);
      if assoc[0].articleUuid != article {
        assert ([assoc[0]] + Detach(assoc[1..], article))[1..] == Detach(assoc[1..], article);
      }
    }
  }

  /** Create: an article no association mentions ends up with exactly the
      inserted ids, in insertion order. */
  lemma CreatedTagIds(assoc: seq<ArticleTag>, ids: seq<TagId>, article: Value)
    requires forall i :: 0 <= i < |assoc| ==> assoc[i].articleUuid != article
    ensures TagIdsOf(assoc + Associate(ids, article), article) == ids
  {
    TagRowsAppend(assoc, Associate(ids, article), article);
    TagRowsOfAssociate(ids, article, article);
  }

  /** Update: delete-all then re-insert leaves the article with exactly the
      re-inserted ids, and every other article with what it had. */
  lemma ReplacedTagIds(assoc: seq<ArticleTag>, ids: seq<TagId>, article: Value, other: Value)
    ensures TagIdsOf(Detach(assoc, article) + Associate(ids, article), other)
            == if other == article then ids else TagIdsOf(assoc, other)
  {
    TagRowsAppend(Detach(assoc, article), Associate(ids, article), other);
    TagRowsOfDetach(assoc, article, other);
    TagRowsOfAssociate(ids, article, other);
  }

  /** The ids `insertTags` receives: the catalog tags selected for the request
      when the service makes one, and none when it skips the tag step. */
  function Selected(catalog: seq<TagId>, request: Option<seq<TagId>>): seq<TagId>
  {
    if request.Some? then SelectTags(catalog, request.value) else []
  }

  /** The associations after a create's tag step: the existing ones, in order,
      followed by one for each catalog tag the request names. */
  function Tagged(assoc: seq<ArticleTag>, catalog: seq<TagId>, request: Option<seq<TagId>>,
                  article: Value): (r: seq<ArticleTag>)
    ensures |assoc| <= |r| && r[..|assoc|] == assoc
    ensures forall a :: a in r <==> a in assoc || (request.Some? && a.articleUuid == article
                                                   && a.tagId in catalog && a.tagId in request.value)
  {
    if request.Some? then assoc + Associate(SelectTags(catalog, request.value), article) else assoc
  }

  /** The associations after an update's tag step: all of the article's are
      deleted, then the selected ones inserted when a request is made. */
  function Retagged(assoc: seq<ArticleTag>, catalog: seq<TagId>, request: Option<seq<TagId>>,
                    article: Value): (r: seq<ArticleTag>)
    ensures forall a :: a in r <==> (a in assoc && a.articleUuid != article)
                                    || (request.Some? && a.articleUuid == article
                                        && a.tagId in catalog && a.tagId in request.value)
  {
    if request.Some? then Detach(assoc, article) + Associate(SelectTags(catalog, request.value), article)
    else Detach(assoc, article)
  }

  /** A newly created article lists exactly the selected tags. */
  lemma TaggedLists(assoc: seq<ArticleTag>, catalog: seq<TagId>, request: Option<seq<TagId>>, article: Value)
    requires forall i :: 0 <= i < |assoc| ==> assoc[i].articleUuid != article
    ensures TagIdsOf(Tagged(assoc, catalog, request, article), article) == Selected(catalog, request)
  {
    CreatedTagIds(assoc, Selected(catalog, request), article);
    if request.None? {
      assert assoc + Associate([], article) == assoc;
    }
  }

  /** An updated article lists exactly the selected tags, and every other
      article keeps its list. */
  lemma RetaggedLists(assoc: seq<ArticleTag>, catalog: seq<TagId>, request: Option<seq<TagId>>, article: Value)
    ensures forall other :: TagIdsOf(Retagged(assoc, catalog, request, article), other)
                            == if other == article then Selected(catalog, request) else TagIdsOf(assoc, other)
  {
    forall other
      ensures TagIdsOf(Retagged(assoc, catalog, request, article), other)
              == if other == article then Selected(catalog, request) else TagIdsOf(assoc, other)
    {
      ReplacedTagIds(assoc, Selected(catalog, request), article, other);
      if request.None? {
        assert Detach(assoc, article) + Associate([], article) == Detach(assoc, article);
      }
    }
  }
}
