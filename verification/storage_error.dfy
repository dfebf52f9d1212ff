/** `StorageError`, the error every storage backend reports, with the
    equality and ordering the tiered backend gives it. */
module StorageErrors {

  import opened Results

  /** A concurrency conflict, an I/O failure, or any other backend
      failure; the `io::Error` of `IOError` and the boxed cause of
      `Miscellaneous` are kept only as descriptions. */
  datatype StorageError = ConcurrencyError | IOError(cause: string) | Miscellaneous(reason: string)

  datatype Ordering = Less | Equal | Greater

  /** `core::mem::discriminant`: which variant, ignoring the payload. */
  function Variant(e: StorageError): nat
  {
    match e
    case ConcurrencyError => 0
    case IOError(_) => 1
    case Miscellaneous(_) => 2
  }

  /** `PartialEq for StorageError`: two `Miscellaneous` errors are equal
      whatever they carry; otherwise the discriminants are compared, so
      two `IOError`s are equal whatever they carry too. */
  predicate ErrorEq(x: StorageError, y: StorageError)
    ensures ErrorEq(x, y) <==>
      (x.ConcurrencyError? && y.ConcurrencyError?) || (x.IOError? && y.IOError?) ||
      (x.Miscellaneous? && y.Miscellaneous?)
  {
    match (x, y)
    case (Miscellaneous(_), Miscellaneous(_)) => true
    case _ => Variant(x) == Variant(y)
  }

  /** `Ord for StorageError`: `ConcurrencyError` before `Miscellaneous`,
      `Equal` within a variant. Its match has no arm for `IOError`, so a
      comparison that involves one has no answer here. */
  function ErrorCmp(x: StorageError, y: StorageError): (r: Option<Ordering>)
    ensures r.None? <==> x.IOError? || y.IOError?
    ensures r == Some(Equal) <==> !x.IOError? && ErrorEq(x, y)
    ensures r == Some(Less) <==> x.ConcurrencyError? && y.Miscellaneous?
  {
    match (x, y)
    case (ConcurrencyError, ConcurrencyError) => Some(Equal)
    case (ConcurrencyError, Miscellaneous(_)) => Some(Less)
    case (Miscellaneous(_), ConcurrencyError) => Some(Greater)
    case (Miscellaneous(_), Miscellaneous(_)) => Some(Equal)
    case _ => None
  }

  function Flip(o: Ordering): Ordering
  {
    match o
    case Less => Greater
    case Equal => Equal
    case Greater => Less
  }

  /** Swapping the operands flips the answer. */
  lemma ErrorCmpAntisymmetric(x: StorageError, y: StorageError)
    ensures ErrorCmp(y, x) == if ErrorCmp(x, y).Some? then Some(Flip(ErrorCmp(x, y).value)) else None
  {
  }

  /** Where it answers, `ErrorCmp` is transitive, so together with
      antisymmetry and the consistency with `ErrorEq` it totally orders
      the errors other than `IOError`. */
  lemma ErrorCmpTransitive(x: StorageError, y: StorageError, z: StorageError)
    requires ErrorCmp(x, y).Some? && ErrorCmp(x, y).value != Greater
    requires ErrorCmp(y, z).Some? && ErrorCmp(y, z).value != Greater
    ensures ErrorCmp(x, z).Some? && ErrorCmp(x, z).value != Greater
    ensures ErrorCmp(x, y).value == Less || ErrorCmp(y, z).value == Less ==> ErrorCmp(x, z) == Some(Less)
  {
  }
}
