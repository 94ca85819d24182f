/** The row-level mapper operations the services call on the base table and
    the extension tables: `insert($row)`, `update($changes, ['article_uuid' => $w])`
    and `delete(['article_uuid' => $w])`. A table is a map from the value of a
    row's `article_uuid` column to the row. */
module Tables {
  import opened Values

  type Table = map<Value, Record>

  /** Every row is stored under the value of its own `article_uuid` column. */
  ghost predicate KeyedByUuid(t: Table)
  {
    forall k :: k in t ==> ArticleUuid in t[k] && t[k][ArticleUuid] == k
  }

  /** `insert($row)`: the row is stored under its `article_uuid`. */
  function Insert(t: Table, row: Record): (r: Table)
    requires ArticleUuid in row
    ensures r.Keys == t.Keys + {row[ArticleUuid]}
    ensures r[row[ArticleUuid]] == row
    ensures forall k :: k in t && k != row[ArticleUuid] ==> r[k] == t[k]
    ensures KeyedByUuid(t) ==> KeyedByUuid(r)
  {
    t[row[ArticleUuid] := row]
  }

  /** `update($changes, ['article_uuid' => $where])`: the columns of `changes` overwrite
      those of the one row whose `article_uuid` is `where`; no row matching
      leaves the table as it was. A `changes` that itself carries `article_uuid`
      moves the row to its new key. */
  function UpdateWhere(t: Table, where: Value, changes: Record): (r: Table)
    requires KeyedByUuid(t)
    ensures KeyedByUuid(r)
    ensures where !in t ==> r == t
    ensures where in t ==>
              var row := Plus(changes, t[where]);
              row[ArticleUuid] in r && r[row[ArticleUuid]] == row
    ensures forall k :: k in t && k != where && (ArticleUuid in changes ==> k != changes[ArticleUuid]) ==>
              k in r && r[k] == t[k]
    ensures ArticleUuid !in changes ==> r.Keys == t.Keys
  {
    if where in t then
      var row := Plus(changes, t[where]);
      (t - {where})[row[ArticleUuid] := row]
    else
      t
  }

  /** `delete(['article_uuid' => $where])`: the matching row is removed. */
  function DeleteWhere(t: Table, where: Value): (r: Table)
    ensures r.Keys == t.Keys - {where}
    ensures forall k :: k in r ==> r[k] == t[k]
    ensures KeyedByUuid(t) ==> KeyedByUuid(r)
  {
    t - {where}
  }

  /** The row a kind mapper's `get` returns: the base row joined with the
      extension row, the base row's value kept where both have a column. */
  function Join(article: Record, extension: Record): Record
  {
    Plus(article, extension)
  }

  /** A kind mapper's `get`: the joined row when the key has both a base row
      and an extension row (an inner join), None otherwise. */
  function Lookup(articles: Table, extension: Table, key: Value): (r: Option<Record>)
    ensures r.Some? <==> key in articles && key in extension
    ensures r.Some? && KeyedByUuid(articles) ==> ArticleUuid in r.value && r.value[ArticleUuid] == key
  {
    if key in articles && key in extension then Some(Join(articles[key], extension[key])) else None
  }

  /** Fetching right after inserting an article's base and extension rows
      under one key finds their join; every other key fetches as before. */
  lemma LookupAfterInsert(articles: Table, extension: Table, article: Record, row: Record)
    requires ArticleUuid in article && ArticleUuid in row && row[ArticleUuid] == article[ArticleUuid]
    ensures Lookup(Insert(articles, article), Insert(extension, row), article[ArticleUuid]) == Some(Join(article, row))
    ensures forall k :: k != article[ArticleUuid] ==>
              Lookup(Insert(articles, article), Insert(extension, row), k) == Lookup(articles, extension, k)
  {
  }

  /** Fetching right after deleting both rows of a key finds nothing; every
      other key fetches as before. */
  lemma LookupAfterDelete(articles: Table, extension: Table, key: Value)
    ensures Lookup(DeleteWhere(articles, key), DeleteWhere(extension, key), key).None?
    ensures forall k :: k != key ==>
              Lookup(DeleteWhere(articles, key), DeleteWhere(extension, key), k) == Lookup(articles, extension, k)
  {
  }
}
