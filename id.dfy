/** The id policy of src/id.rs for the integer id types: start at 0, and
    generate the next id by adding one to the last one. */
module Id {
  import opened DbErrors
  import opened Bytes
  import opened Storable

  /** `IdType::initial`. */
  function Initial(): int {
    0
  }

  /** `IdType::generate`: `last_id + 1`, which panics once the id type's
      maximum is reached (the panic is `Overflow`). */
  function Generate(k: IntKind, last: int): (r: Result<int>)
    ensures r.Ok? ==> r.value == last + 1
    ensures r.Err? ==> r.error == Overflow
  {
    if last + 1 <= k.Max() then Ok(last + 1) else Err(Overflow)
  }

  /** The initial id is a value of every id type. */
  lemma InitialInRange(k: IntKind)
    ensures k.InRange(Initial())
  {
  }

  lemma Pow256AtLeast(w: nat)
    requires w >= 1
    ensures Pow256(w) >= 256
  {
    if w > 1 {
      Pow256AtLeast(w - 1);
    }
  }

  /** The first generated id of a fresh table is 1, whatever the id type. */
  lemma FirstGenerated(k: IntKind)
    ensures Generate(k, Initial()) == Ok(1)
  {
    Pow256AtLeast(k.Width());
  }

  /** Generating from an id of the type either gives an id of the type or
      fails exactly at the type's maximum. */
  lemma GenerateStaysInRange(k: IntKind, last: int)
    requires k.InRange(last)
    ensures Generate(k, last).Ok? <==> last != k.Max()
    ensures Generate(k, last).Ok? ==> k.InRange(Generate(k, last).value)
  {
  }

  /** `generate` is strictly increasing, so ids generated one after the
      other are all distinct. */
  lemma GenerateIncreasing(k: IntKind, a: int, b: int)
    requires a < b && Generate(k, a).Ok? && Generate(k, b).Ok?
    ensures Generate(k, a).value < Generate(k, b).value
    ensures Generate(k, a).value > a
  {
  }
}
