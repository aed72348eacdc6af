/** Vocabulary shared by the three controllers: optional values, uploaded files,
    the outcome of a form post, and the one action they all implement the same way,
    `DeleteConfirmed`. */
module Common {

  /** A nullable value (`string?`, `byte[]?`, `IFormFile?`). */
  datatype Option<+T> = None | Some(value: T)

  type Bytes = seq<bv8>

  /** A file posted with a form: absent, or its full contents. */
  type Upload = Option<Bytes>

  /** `file != null && file.Length > 0`: only such an upload replaces a stored blob. */
  predicate HasContent(upload: Upload)
  {
    upload.Some? && |upload.value| > 0
  }

  /** The blob a row carries after a post: the upload when it has content, otherwise `kept`. */
  function BlobAfter(upload: Upload, kept: Option<Bytes>): Option<Bytes>
  {
    if HasContent(upload) then upload else kept
  }

  /** The value of an int key the database has not assigned yet (the default of `int`). */
  const UnsetKey: int := 0

  /** Keys are generated by the database from 1 upward, so a stored row never has key 0. */
  predicate IsAssignedKey(k: int)
  {
    k > 0
  }

  /** A key the database may hand out for the next inserted row. */
  predicate IsFreshKey<T>(table: map<int, T>, k: int)
  {
    IsAssignedKey(k) && k !in table
  }

  /** The key an update (`_context.Update` followed by `SaveChangesAsync`) writes to. An entity
      whose key is still unset is tracked as new, so it is inserted under the fresh key `newId`;
      any other entity is written under its own key. */
  function WriteKey(id: int, newId: int): int
  {
    if id == UnsetKey then newId else id
  }

  /** Why a post was answered by re-showing the form. */
  datatype Rejection =
    | Duplicate  // the uniqueness pre-check found a matching row
    | Invalid    // `ModelState.IsValid` was false

  /** How a POST action answers. */
  datatype Outcome = Redirect | NotFound | Rejected(reason: Rejection)

  /** The answer of a POST action together with the table it leaves behind. */
  datatype Step<T> = Step(outcome: Outcome, table: map<int, T>)

  /** POST Delete: remove the row if it exists, save, and redirect either way. */
  function DeleteConfirmed<T>(table: map<int, T>, id: int): (r: Step<T>)
    ensures r.outcome == Redirect
    ensures r.table.Keys == table.Keys - {id}
    ensures forall k :: k in r.table ==> r.table[k] == table[k]
    ensures id !in table ==> r.table == table
  {
    Step(Redirect, table - {id})
  }

  /** Confirming the same delete twice answers and stores exactly what confirming it once does. */
  lemma DeleteIdempotent<T>(table: map<int, T>, id: int)
    ensures DeleteConfirmed(DeleteConfirmed(table, id).table, id) == DeleteConfirmed(table, id)
  {
  }
}
