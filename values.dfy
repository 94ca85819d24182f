/** The PHP values the services put into rows, PHP's array union `+`, and
    PHP's truthiness test. */
module Values {
  import opened Identity

  datatype Option<+T> = None | Some(value: T)

  /** The two article kinds, `ArticleType::POST` and `ArticleType::DISCUSSION`. */
  datatype ArticleType = POST | DISCUSSION

  /** A column value. The only list a row holds is the list of tag ids a
      fetch attaches, so lists are lists of integers. */
  datatype Value =
    | Null
    | Bool(b: bool)
    | Int(i: int)
    | Str(s: string)
    | Uuid(key: StorageKey)
    | Kind(kind: ArticleType)
    | IntList(items: seq<int>)

  /** The keys of a row. The columns the services name get a constructor
      each; every other column is known by its name. */
  datatype Field =
    | ArticleUuid | ArticleId | AdminUserUuid | Type
    | FeaturedImg | MainImg | Tags | Slug
    | Named(name: string)

  /** A row, or the associative array the services build before writing it. */
  type Record = map<Field, Value>

  /** PHP's `$left + $right`: every key of either array; where both have a key,
      the value of the LEFT operand is kept. */
  function Plus<K, V>(left: map<K, V>, right: map<K, V>): (r: map<K, V>)
    ensures r.Keys == left.Keys + right.Keys
    ensures forall k :: k in left ==> r[k] == left[k]
    ensures forall k :: k in right && k !in left ==> r[k] == right[k]
  {
    right + left
  }

  /** Whether `if ($v)` takes the then-branch. The kind constants and binary
      storage keys are non-empty, hence true. */
  predicate Truthy(v: Value)
  {
    match v
    case Null => false
    case Bool(b) => b
    case Int(i) => i != 0
    case Str(s) => s != "" && s != "0"
    case Uuid(_) => true
    case Kind(_) => true
    case IntList(items) => items != []
  }

  /** The value of a column, or None when the row has no such column. */
  function Column(row: Record, field: Field): Option<Value>
  {
    if field in row then Some(row[field]) else None
  }
}
