/** The orders the list endpoints sort by: text ascending (`orderBy: "asc"` on a
    text column, taken as code-point lexicographic order) and instants descending. */
module Ordering {
  import opened Seqs

  /** `a` comes no later than `b` in lexicographic order of code points. */
  predicate LexLe(a: string, b: string)
  {
    if |a| == 0 then true
    else if |b| == 0 then false
    else if a[0] != b[0] then a[0] < b[0]
    else LexLe(a[1..], b[1..])
  }

  lemma {:induction false} LexLeTotal(a: string, b: string)
    ensures LexLe(a, b) || LexLe(b, a)
  {
    if |a| > 0 && |b| > 0 && a[0] == b[0] {
      LexLeTotal(a[1..], b[1..]);
    }
  }

  lemma {:induction false} LexLeTransitive(a: string, b: string, c: string)
    requires LexLe(a, b) && LexLe(b, c)
    ensures LexLe(a, c)
  {
    if |a| > 0 && |b| > 0 && |c| > 0 && a[0] == b[0] && b[0] == c[0] {
      LexLeTransitive(a[1..], b[1..], c[1..]);
    }
  }

  /** Equal texts are ordered both ways, and only equal texts are. */
  lemma {:induction false} LexLeAntisymmetric(a: string, b: string)
    requires LexLe(a, b) && LexLe(b, a)
    ensures a == b
  {
    if |a| > 0 && |b| > 0 {
      LexLeAntisymmetric(a[1..], b[1..]);
      assert a == [a[0]] + a[1..] && b == [b[0]] + b[1..];
    }
  }

  /** Any order obtained by comparing a text key lexicographically is a total preorder. */
  lemma TextKeyOrder<T(!new)>(key: T -> string, le: (T, T) -> bool)
    requires forall x, y :: le(x, y) == LexLe(key(x), key(y))
    ensures TotalPreorder(le)
  {
    forall x, y ensures le(x, y) || le(y, x) {
      LexLeTotal(key(x), key(y));
    }
    forall x, y, z | le(x, y) && le(y, z) ensures le(x, z) {
      LexLeTransitive(key(x), key(y), key(z));
    }
  }

  /** Any order comparing an integer key descending is a total preorder. */
  lemma DescendingKeyOrder<T(!new)>(key: T -> int, le: (T, T) -> bool)
    requires forall x, y :: le(x, y) == (key(x) >= key(y))
    ensures TotalPreorder(le)
  {
  }
}
