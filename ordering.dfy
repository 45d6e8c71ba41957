/** Ordinal string comparison: character by character on code units, a
    proper prefix coming first. Listings order names with it. */
module Ordering {

  /** `string.CompareOrdinal(a, b) <= 0`. */
  predicate OrdinalLe(a: string, b: string)
    decreases |a|
  {
    if a == [] then true
    else if b == [] then false
    else if a[0] != b[0] then a[0] < b[0]
    else OrdinalLe(a[1..], b[1..])
  }

  /** `string.CompareOrdinal(a, b) < 0`. */
  predicate OrdinalLt(a: string, b: string) {
    OrdinalLe(a, b) && a != b
  }

  lemma {:induction false} OrdinalReflexive(a: string)
    ensures OrdinalLe(a, a)
  {
    if a != [] {
      OrdinalReflexive(a[1..]);
    }
  }

  lemma {:induction false} OrdinalTotal(a: string, b: string)
    ensures OrdinalLe(a, b) || OrdinalLe(b, a)
    decreases |a|
  {
    if a != [] && b != [] && a[0] == b[0] {
      OrdinalTotal(a[1..], b[1..]);
    }
  }

  lemma {:induction false} OrdinalTransitive(a: string, b: string, c: string)
    requires OrdinalLe(a, b) && OrdinalLe(b, c)
    ensures OrdinalLe(a, c)
    decreases |a|
  {
    if a != [] && b != [] && c != [] && a[0] == b[0] && b[0] == c[0] {
      OrdinalTransitive(a[1..], b[1..], c[1..]);
    }
  }

  lemma {:induction false} OrdinalAntisymmetric(a: string, b: string)
    requires OrdinalLe(a, b) && OrdinalLe(b, a)
    ensures a == b
    decreases |a|
  {
    if a != [] && b != [] {
      OrdinalAntisymmetric(a[1..], b[1..]);
      assert a == [a[0]] + a[1..] && b == [b[0]] + b[1..];
    }
  }

  /** Two strings that share a prefix compare as their remainders do. */
  lemma {:induction false} OrdinalCommonPrefix(p: string, a: string, b: string)
    ensures OrdinalLe(p + a, p + b) == OrdinalLe(a, b)
  {
    if p != [] {
      assert (p + a)[0] == p[0] && (p + b)[0] == p[0];
      assert (p + a)[1..] == p[1..] + a && (p + b)[1..] == p[1..] + b;
      OrdinalCommonPrefix(p[1..], a, b);
    } else {
      assert p + a == a && p + b == b;
    }
  }

  /** Comparing two non-empty strings: first characters, then the rest. */
  lemma OrdinalCons(c: char, a: string, d: char, b: string)
    ensures OrdinalLe([c] + a, [d] + b) == if c != d then c < d else OrdinalLe(a, b)
  {
    assert ([c] + a)[1..] == a && ([d] + b)[1..] == b;
  }
}
