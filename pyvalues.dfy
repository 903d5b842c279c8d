/** The few pieces of Python semantics the core relies on: the exceptions it
    can raise, and the ordering Python uses when it compares two `str`. */
module PyValues {

  /** The exceptions the modelled functions can raise. */
  datatype PyError =
    | IndexError             // a list index out of range
    | KeyError               // a missing dictionary key or set element
    | ValueError(message: string)

  /** A call either returns a value or raises. */
  datatype Result<T> = Ok(value: T) | Err(error: PyError)

  /** A call that returns `None` or raises. */
  datatype Outcome = Pass | Fail(error: PyError)

  function Min(a: int, b: int): int
  {
    if a <= b then a else b
  }

  /** Python's `a < b` on `str`: code point by code point, and a proper prefix
      comes first. */
  predicate StrLess(a: string, b: string)
  {
    if a == [] then b != []
    else if b == [] then false
    else a[0] < b[0] || (a[0] == b[0] && StrLess(a[1..], b[1..]))
  }

  lemma {:induction false} StrLessIrreflexive(a: string)
    ensures !StrLess(a, a)
  {
    if a != [] {
      StrLessIrreflexive(a[1..]);
    }
  }

  lemma {:induction false} StrLessTransitive(a: string, b: string, c: string)
    requires StrLess(a, b) && StrLess(b, c)
    ensures StrLess(a, c)
  {
    if a != [] && a[0] == b[0] && b[0] == c[0] {
      StrLessTransitive(a[1..], b[1..], c[1..]);
    }
  }

  /** Two different strings are always ordered one way or the other. */
  lemma {:induction false} StrLessTotal(a: string, b: string)
    requires a != b
    ensures StrLess(a, b) || StrLess(b, a)
  {
    if a != [] && b != [] && a[0] == b[0] {
      assert a == [a[0]] + a[1..] && b == [b[0]] + b[1..];
      StrLessTotal(a[1..], b[1..]);
    }
  }

  lemma StrLessAsymmetric(a: string, b: string)
    requires StrLess(a, b)
    ensures !StrLess(b, a)
  {
  }
}
