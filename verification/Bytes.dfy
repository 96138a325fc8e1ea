/** Byte strings and the order std::vector<uint8_t> and std::string compare them by. */
module Bytes {

  type Byte = x: int | 0 <= x < 256

  /** A key or value as stored in the tree. */
  type Key = seq<Byte>

  /** Lexicographic order on unsigned bytes; a proper prefix comes first. */
  predicate Lt(a: Key, b: Key)
  {
    |b| > 0 && (|a| == 0 || a[0] < b[0] || (a[0] == b[0] && Lt(a[1..], b[1..])))
  }

  predicate Le(a: Key, b: Key)
  {
    a == b || Lt(a, b)
  }

  lemma {:induction false} LtIrreflexive(a: Key)
    ensures !Lt(a, a)
  {
    if a != [] {
      LtIrreflexive(a[1..]);
    }
  }

  lemma {:induction false} LtTransitive(a: Key, b: Key, c: Key)
    requires Lt(a, b) && Lt(b, c)
    ensures Lt(a, c)
  {
    if a != [] && a[0] == b[0] && b[0] == c[0] {
      LtTransitive(a[1..], b[1..], c[1..]);
    }
  }

  lemma {:induction false} LtTotal(a: Key, b: Key)
    ensures Lt(a, b) || a == b || Lt(b, a)
  {
    if a != [] && b != [] && a[0] == b[0] {
      LtTotal(a[1..], b[1..]);
      assert a == [a[0]] + a[1..] && b == [b[0]] + b[1..];
    }
  }

  /** Lt is a strict total order with the empty key least. */
  lemma LtIsStrictTotalOrder()
    ensures forall a {:trigger Lt(a, a)} :: !Lt(a, a)
    ensures forall a, b {:trigger Lt(a, b)} :: Lt(a, b) || a == b || Lt(b, a)
    ensures forall a, b, c {:trigger Lt(a, b), Lt(b, c)} :: Lt(a, b) && Lt(b, c) ==> Lt(a, c)
    ensures forall a {:trigger Lt([], a)} :: a != [] ==> Lt([], a)
  {
    forall a ensures !Lt(a, a) { LtIrreflexive(a); }
    forall a, b ensures Lt(a, b) || a == b || Lt(b, a) { LtTotal(a, b); }
    forall a, b, c | Lt(a, b) && Lt(b, c) ensures Lt(a, c) { LtTransitive(a, b, c); }
  }
}
