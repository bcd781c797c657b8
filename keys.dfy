/**
 * Keys and half-open key ranges, as the workload compares them: keys are
 * byte strings ordered byte-lexicographically, a range `[begin, end)`
 * contains another when it spans it, and two ranges intersect when each
 * begins before the other ends.
 */
module Keys {
  import opened FixedWidth

  type Key = seq<uint8>

  /** `a <= b` in byte-lexicographic order: a proper prefix sorts first. */
  predicate KeyLeq(a: Key, b: Key)
    decreases |a|
  {
    |a| == 0 || (|b| > 0 && (a[0] < b[0] || (a[0] == b[0] && KeyLeq(a[1..], b[1..]))))
  }

  /** `a < b` in byte-lexicographic order. */
  predicate KeyLess(a: Key, b: Key)
  {
    KeyLeq(a, b) && a != b
  }

  lemma {:induction false} KeyLeqReflexive(a: Key)
    ensures KeyLeq(a, a)
    decreases |a|
  {
    if |a| > 0 {
      KeyLeqReflexive(a[1..]);
    }
  }

  lemma {:induction false} KeyLeqAntisymmetric(a: Key, b: Key)
    requires KeyLeq(a, b) && KeyLeq(b, a)
    ensures a == b
    decreases |a|
  {
    if |a| > 0 {
      assert a[0] == b[0];
      KeyLeqAntisymmetric(a[1..], b[1..]);
      assert a == [a[0]] + a[1..] && b == [b[0]] + b[1..];
    }
  }

  lemma {:induction false} KeyLeqTransitive(a: Key, b: Key, c: Key)
    requires KeyLeq(a, b) && KeyLeq(b, c)
    ensures KeyLeq(a, c)
    decreases |a|
  {
    if |a| > 0 && a[0] == b[0] && b[0] == c[0] {
      KeyLeqTransitive(a[1..], b[1..], c[1..]);
    }
  }

  lemma {:induction false} KeyLeqTotal(a: Key, b: Key)
    ensures KeyLeq(a, b) || KeyLeq(b, a)
    decreases |a|
  {
    if |a| > 0 && |b| > 0 && a[0] == b[0] {
      KeyLeqTotal(a[1..], b[1..]);
    }
  }

  /** Strict and non-strict order chain into a strict one. */
  lemma KeyLessLeq(a: Key, b: Key, c: Key)
    ensures KeyLess(a, b) && KeyLeq(b, c) ==> KeyLess(a, c)
    ensures KeyLeq(a, b) && KeyLess(b, c) ==> KeyLess(a, c)
  {
    if KeyLeq(a, b) && KeyLeq(b, c) {
      KeyLeqTransitive(a, b, c);
      if a == c {
        KeyLeqAntisymmetric(a, b);
      }
    }
  }

  /** `KeyLess` is the complement of the reversed `KeyLeq`, as for any total order. */
  lemma KeyLessIsNotLeq(a: Key, b: Key)
    ensures KeyLess(a, b) <==> !KeyLeq(b, a)
  {
    KeyLeqTotal(a, b);
    if KeyLeq(a, b) && KeyLeq(b, a) {
      KeyLeqAntisymmetric(a, b);
    }
    if a == b {
      KeyLeqReflexive(a);
    }
  }

  /** A half-open key range `[begin, end)` (`KeyRangeRef`). */
  datatype KeyRange = KeyRange(begin: Key, end: Key)

  /** `KeyRangeRef(begin, end)` accepts the bounds: the begin is not after the end. */
  predicate Ordered(r: KeyRange)
  {
    KeyLeq(r.begin, r.end)
  }

  /** `r.contains(o)`: `o` lies within `r`. */
  predicate Contains(r: KeyRange, o: KeyRange)
  {
    KeyLeq(r.begin, o.begin) && KeyLeq(o.end, r.end)
  }

  /** `r.intersects(o)`: each range begins before the other ends. */
  predicate Intersects(r: KeyRange, o: KeyRange)
  {
    KeyLess(r.begin, o.end) && KeyLess(o.begin, r.end)
  }

  lemma ContainsReflexive(r: KeyRange)
    ensures Contains(r, r)
  {
    KeyLeqReflexive(r.begin);
    KeyLeqReflexive(r.end);
  }

  lemma ContainsTransitive(a: KeyRange, b: KeyRange, c: KeyRange)
    requires Contains(a, b) && Contains(b, c)
    ensures Contains(a, c)
  {
    KeyLeqTransitive(a.begin, b.begin, c.begin);
    KeyLeqTransitive(c.end, b.end, a.end);
  }

  lemma IntersectsSymmetric(a: KeyRange, b: KeyRange)
    ensures Intersects(a, b) <==> Intersects(b, a)
  {
  }

  /** A range that contains a range intersecting `c` intersects `c` too. */
  lemma ContainsIntersects(a: KeyRange, b: KeyRange, c: KeyRange)
    requires Contains(a, b) && Intersects(b, c)
    ensures Intersects(a, c)
  {
    KeyLessLeq(a.begin, b.begin, c.end);
    KeyLessLeq(c.begin, b.end, a.end);
  }
}
