/**
 Order on strings. Rust compares `str` values byte by byte in UTF-8, which is the
 lexicographic order on code points used here.
 */
module Text {

  /** Strict lexicographic order. */
  predicate Before(a: string, b: string) {
    if b == [] then false
    else if a == [] then true
    else a[0] < b[0] || (a[0] == b[0] && Before(a[1..], b[1..]))
  }

  predicate AtMost(a: string, b: string) {
    !Before(b, a)
  }

  lemma {:induction false} BeforeIrreflexive(a: string)
    ensures !Before(a, a)
  {
    if a != [] {
      BeforeIrreflexive(a[1..]);
    }
  }

  lemma {:induction false} BeforeTransitive(a: string, b: string, c: string)
    requires Before(a, b) && Before(b, c)
    ensures Before(a, c)
  {
    if a != [] && a[0] == b[0] == c[0] {
      BeforeTransitive(a[1..], b[1..], c[1..]);
    }
  }

  lemma {:induction false} BeforeTotal(a: string, b: string)
    ensures Before(a, b) || a == b || Before(b, a)
  {
    if a != [] && b != [] && a[0] == b[0] {
      BeforeTotal(a[1..], b[1..]);
      assert a == [a[0]] + a[1..] && b == [b[0]] + b[1..];
    }
  }

  /** `Before` is a strict total order, stated for use by quantified proofs. */
  lemma BeforeIsStrictTotalOrder()
    ensures forall a :: !Before(a, a)
    ensures forall a, b, c :: Before(a, b) && Before(b, c) ==> Before(a, c)
    ensures forall a, b :: Before(a, b) || a == b || Before(b, a)
  {
    forall a ensures !Before(a, a) { BeforeIrreflexive(a); }
    forall a, b, c | Before(a, b) && Before(b, c) ensures Before(a, c) { BeforeTransitive(a, b, c); }
    forall a, b ensures Before(a, b) || a == b || Before(b, a) { BeforeTotal(a, b); }
  }

  /** `AtMost` is total and transitive. */
  lemma AtMostIsTotalOrder(a: string, b: string, c: string)
    ensures AtMost(a, b) || AtMost(b, a)
    ensures AtMost(a, b) && AtMost(b, c) ==> AtMost(a, c)
  {
    if Before(b, a) && Before(a, b) {
      BeforeTransitive(a, b, a);
      BeforeIrreflexive(a);
    }
    BeforeTotal(a, b);
    BeforeTotal(b, c);
    if AtMost(a, b) && AtMost(b, c) && Before(c, a) {
      if Before(a, b) {
        BeforeTransitive(c, a, b);
      }
    }
  }

  function Join(parts: seq<string>, separator: string): string {
    if parts == [] then ""
    else if |parts| == 1 then parts[0]
    else parts[0] + separator + Join(parts[1..], separator)
  }
}
