/**
 * Ordering of entry names.
 *
 * The scanner sorts directory entries by their raw name. On Unix that is a
 * byte-wise lexicographic comparison of the name's bytes; for valid UTF-8
 * names the byte order coincides with the code-point order, which is what
 * `NameLe` compares here (one `char` per code point).
 */
module Names {

  /** `a` sorts before or equal to `b`: lexicographic order on code points. */
  predicate NameLe(a: string, b: string)
    decreases |a|
  {
    |a| == 0 || (|b| > 0 && (a[0] < b[0] || (a[0] == b[0] && NameLe(a[1..], b[1..]))))
  }

  /** `a` sorts strictly before `b`. */
  predicate NameLt(a: string, b: string)
  {
    NameLe(a, b) && a != b
  }

  lemma {:induction false} NameLeReflexive(a: string)
    ensures NameLe(a, a)
    decreases |a|
  {
    if |a| > 0 {
      NameLeReflexive(a[1..]);
    }
  }

  lemma {:induction false} NameLeAntisymmetric(a: string, b: string)
    requires NameLe(a, b) && NameLe(b, a)
    ensures a == b
    decreases |a|
  {
    if |a| > 0 {
      NameLeAntisymmetric(a[1..], b[1..]);
      assert a == [a[0]] + a[1..] && b == [b[0]] + b[1..];
    }
  }

  lemma {:induction false} NameLeTransitive(a: string, b: string, c: string)
    requires NameLe(a, b) && NameLe(b, c)
    ensures NameLe(a, c)
    decreases |a|
  {
    if |a| > 0 && a[0] == b[0] && b[0] == c[0] {
      NameLeTransitive(a[1..], b[1..], c[1..]);
    }
  }

  lemma {:induction false} NameLeTotal(a: string, b: string)
    ensures NameLe(a, b) || NameLe(b, a)
    decreases |a|
  {
    if |a| > 0 && |b| > 0 && a[0] == b[0] {
      NameLeTotal(a[1..], b[1..]);
    }
  }

  /** Not strictly before means at-or-after: the order is total. */
  lemma NotLtIsGe(a: string, b: string)
    requires !NameLt(a, b)
    ensures NameLe(b, a)
  {
    NameLeTotal(a, b);
    if a == b {
      NameLeReflexive(a);
    }
  }
}
