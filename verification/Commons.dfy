/** What several components share: a value that may be missing, and products. */
module Commons {

  datatype Option<T> = None | Some(value: T)

  /** The product of two factors, as a function of its own: a name to reason about. */
  function Times(a: real, b: real): real { a * b }

  lemma TimesMonotone(a: real, b: real, c: real)
    requires a >= b && c >= 0.0
    ensures Times(a, c) >= Times(b, c) && Times(c, a) >= Times(c, b)
  {
  }

  lemma TimesAssociate(a: real, b: real, c: real)
    ensures Times(Times(a, b), c) == Times(a, Times(b, c))
  {
  }

  lemma TimesFactors(a: real, b: real)
    requires a >= 0.0 && b >= 0.0
    ensures Times(a, b) >= 0.0
  {
  }
}
