/** Order-preserving selection from a sequence, and indexing into concatenations. */
module Sequences {

  /** `a` is `b` with some elements left out, the rest kept in their order. */
  predicate IsSubsequence<T(==)>(a: seq<T>, b: seq<T>)
    decreases |b|
  {
    || |a| == 0
    || (&& |b| > 0
        && ((a[0] == b[0] && IsSubsequence(a[1..], b[1..])) || IsSubsequence(a, b[1..])))
  }

  lemma {:induction false} SubsequenceReflexive<T>(s: seq<T>)
    ensures IsSubsequence(s, s)
    decreases |s|
  {
    if |s| > 0 {
      SubsequenceReflexive(s[1..]);
    }
  }

  /** Position `p` of `a + b + c` lies in exactly one of the three parts. */
  lemma ConcatAt<T>(a: seq<T>, b: seq<T>, c: seq<T>, p: int)
    requires 0 <= p < |a + b + c|
    ensures (a + b + c)[p] ==
      if p < |a| then a[p] else if p < |a| + |b| then b[p - |a|] else c[p - |a| - |b|]
  {
  }

  /** Concatenation of four parts, regrouped to the right. */
  lemma Assoc4<T>(a: seq<T>, b: seq<T>, c: seq<T>, d: seq<T>)
    ensures a + b + c + d == a + (b + (c + d))
  {
  }

  /** A non-empty sequence is its first element before the rest. */
  lemma HeadTail<T>(s: seq<T>)
    requires |s| > 0
    ensures [s[0]] + s[1..] == s
  {
  }

  /** A part that ends in `x`, followed by two more, regrouped around `x`. */
  lemma RegroupAround<T>(a: seq<T>, b: seq<T>, x: T, r: seq<T>, c: seq<T>)
    requires a == b + [x]
    ensures a + r + c == b + [x] + (r + c)
  {
  }

  /** A part that starts with `x`, followed by two more, regrouped after `x`. */
  lemma RegroupAfter<T>(a: seq<T>, x: T, b: seq<T>, r: seq<T>, c: seq<T>)
    requires a == [x] + b
    ensures a + r + c == [] + [x] + (b + r + c)
  {
  }

  lemma NotInConcat<T>(x: T, a: seq<T>, b: seq<T>, c: seq<T>)
    requires x !in a && x !in b && x !in c
    ensures x !in a + b + c
  {
  }

  /** Concatenation of five parts, regrouped to the right. */
  lemma Assoc5<T>(a: seq<T>, b: seq<T>, c: seq<T>, d: seq<T>, e: seq<T>)
    ensures a + b + c + d + e == a + (b + (c + (d + e)))
  {
  }

  /** What follows a prefix. */
  lemma DropPrefix<T>(a: seq<T>, t: seq<T>)
    ensures (a + t)[|a|..] == t
  {
  }
}
