/** Outcomes shared by the codec, the table container and the database
    (`DbError` and `DbResult` in src/db.rs). */
module DbErrors {

  /** A computation that may panic: `None` stands for the panic. */
  datatype Option<+T> = None | Some(value: T) {
    predicate IsFailure() { None? }

    function PropagateFailure<U>(): Option<U>
      requires None?
    {
      None
    }

    function Extract(): T
      requires Some?
    {
      value
    }
  }

  /** The error kinds an operation reports. `IoError` carries no payload here.
      `Overflow` is not a variant of the source's enum: it stands for the
      arithmetic panic of `last_id + 1` at the id type's maximum. */
  datatype DbError =
    | IdExists
    | TypeNotFound
    | IdNotFound
    | IoError
    | LoadError
    | InvalidFileVersion
    | Overflow

  /** `DbResult<T>`, usable with `:-`. */
  datatype Result<+T> = Ok(value: T) | Err(error: DbError) {
    predicate IsFailure() { Err? }

    function PropagateFailure<U>(): Result<U>
      requires Err?
    {
      Err(error)
    }

    function Extract(): T
      requires Ok?
    {
      value
    }
  }

  /** `PartialEq for DbError`: two errors are equal when they are the same kind,
      except that an I/O error is equal to nothing, not even to itself. */
  predicate ErrorEq(a: DbError, b: DbError) {
    match a
    case IdExists => b.IdExists?
    case TypeNotFound => b.TypeNotFound?
    case IdNotFound => b.IdNotFound?
    case IoError => false
    case LoadError => b.LoadError?
    case InvalidFileVersion => b.InvalidFileVersion?
    case Overflow => b.Overflow?
  }

  /** The equality is structural equality with I/O errors taken out: it is
      symmetric and transitive, and reflexive everywhere but on `IoError`. */
  lemma ErrorEqMeansSameKind(a: DbError, b: DbError)
    ensures ErrorEq(a, b) <==> a == b && !a.IoError?
    ensures ErrorEq(a, b) == ErrorEq(b, a)
  {
  }
}
