/** The dual identity of an article: the textual UUID allocated once when the
    article is created, and the binary storage key derived from it that joins
    the base row, the extension row and the tag associations. */
module Identity {

  /** The textual UUID, as the UUID library prints it. */
  type TextId = string

  /** The binary storage key. Its byte layout is not modelled: a key is the
      encoding of exactly one textual id, which is all the services rely on. */
  datatype StorageKey = Binary(source: TextId)

  /** Derives the storage key from the textual id. */
  function Encode(id: TextId): (key: StorageKey)
    ensures Decode(key) == id
  {
    Binary(id)
  }

  /** Recovers the textual id from a storage key. */
  function Decode(key: StorageKey): TextId
  {
    key.source
  }

  /** Every storage key is the encoding of the id it decodes to. */
  lemma EncodeDecode(key: StorageKey)
    ensures Encode(Decode(key)) == key
  {
  }

  /** Two textual ids share a storage key only if they are the same id. */
  lemma EncodeInjective(a: TextId, b: TextId)
    ensures Encode(a) == Encode(b) <==> a == b
  {
  }
}
