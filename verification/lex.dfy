/**
 * Java's `String.compareTo`: the difference of the first differing
 * characters, or of the lengths when one string is a prefix of the other.
 * A Dafny `char` is a Unicode scalar value, not a UTF-16 code unit, so
 * outside the Basic Multilingual Plane lengths and order differ from Java's.
 */
module Lex {
  import Sorting

  function CompareTo(a: string, b: string): (r: int)
    ensures r == 0 <==> a == b
  {
    if |a| == 0 || |b| == 0 then |a| - |b|
    else if a[0] != b[0] then a[0] as int - b[0] as int
    else
      var r := CompareTo(a[1..], b[1..]);
      assert a == [a[0]] + a[1..] && b == [b[0]] + b[1..];
      r
  }

  /**
   * Lexicographic order, defined independently: `a` is a proper prefix of
   * `b`, or the first position where they differ holds a smaller character in `a`.
   */
  predicate LexLess(a: string, b: string) {
    || (|a| < |b| && a == b[..|a|])
    || exists k :: 0 <= k < |a| && k < |b| && a[..k] == b[..k] && a[k] < b[k]
  }

  /** Strings with the same first character are ordered as their tails are. */
  lemma LexLessTails(a: string, b: string)
    requires |a| > 0 && |b| > 0 && a[0] == b[0]
    ensures LexLess(a, b) <==> LexLess(a[1..], b[1..])
  {
    var a', b' := a[1..], b[1..];
    if |a| < |b| && a == b[..|a|] {
      assert a' == b'[..|a'|];
    }
    if |a'| < |b'| && a' == b'[..|a'|] {
      assert a == [a[0]] + a' && b[..|a|] == [b[0]] + b'[..|a'|];
    }
    if k :| 0 <= k < |a| && k < |b| && a[..k] == b[..k] && a[k] < b[k] {
      assert k > 0;
      assert a'[..k - 1] == a[1..k] == b[1..k] == b'[..k - 1];
      assert a'[k - 1] < b'[k - 1];
    }
    if k :| 0 <= k < |a'| && k < |b'| && a'[..k] == b'[..k] && a'[k] < b'[k] {
      assert a[..k + 1] == [a[0]] + a'[..k] && b[..k + 1] == [b[0]] + b'[..k];
      assert a[k + 1] < b[k + 1];
    }
  }

  /** `compareTo` is negative exactly when the first string comes first lexicographically. */
  lemma {:induction false} CompareToIsLexicographic(a: string, b: string)
    ensures CompareTo(a, b) < 0 <==> LexLess(a, b)
    ensures CompareTo(a, b) > 0 <==> LexLess(b, a)
  {
    if |a| == 0 || |b| == 0 {
      assert |a| == 0 ==> a == b[..0];
      assert |b| == 0 ==> b == a[..0];
    } else if a[0] != b[0] {
      assert a[..0] == b[..0];
      forall k | 0 < k <= |a| && k <= |b| ensures a[..k][0] == a[0] && b[..k][0] == b[0] {
      }
    } else {
      CompareToIsLexicographic(a[1..], b[1..]);
      LexLessTails(a, b);
      LexLessTails(b, a);
    }
  }

  /** `a.compareTo(b) <= 0`. */
  predicate Leq(a: string, b: string) {
    CompareTo(a, b) <= 0
  }

  lemma {:induction false} CompareToFlips(a: string, b: string)
    ensures CompareTo(b, a) == -CompareTo(a, b)
  {
    if |a| > 0 && |b| > 0 && a[0] == b[0] {
      CompareToFlips(a[1..], b[1..]);
    }
  }

  lemma {:induction false} LeqTransitive(a: string, b: string, c: string)
    requires Leq(a, b) && Leq(b, c)
    ensures Leq(a, c)
  {
    if |a| > 0 && |b| > 0 && |c| > 0 && a[0] == b[0] && b[0] == c[0] {
      LeqTransitive(a[1..], b[1..], c[1..]);
    }
  }

  /** `Leq` as a comparison value, for sorting. */
  function Order(): (string, string) -> bool {
    (a: string, b: string) => Leq(a, b)
  }

  /** `Leq` is a total order, so sorting by it has one answer. */
  lemma LeqIsTotalOrder()
    ensures Sorting.TotalPreorder(Order())
    ensures Sorting.Antisymmetric(Order())
  {
    forall a: string, b: string ensures Leq(a, b) || Leq(b, a) {
      CompareToFlips(a, b);
    }
    forall a: string, b: string, c: string | Leq(a, b) && Leq(b, c) ensures Leq(a, c) {
      LeqTransitive(a, b, c);
    }
    forall a: string, b: string | Leq(a, b) && Leq(b, a) ensures a == b {
      CompareToFlips(a, b);
    }
  }

  /** Strings with the same first character compare as their tails do. */
  lemma SameHead(c: char, x: string, y: string)
    ensures Leq([c] + x, [c] + y) <==> Leq(x, y)
  {
    assert ([c] + x)[1..] == x && ([c] + y)[1..] == y;
  }

  /** Appending the same character to strings of equal length keeps their order. */
  lemma {:induction false} SameTail(x: string, y: string, c: char)
    requires |x| == |y| && Leq(x, y)
    ensures Leq(x + [c], y + [c])
  {
    if |x| > 0 {
      assert (x + [c])[1..] == x[1..] + [c] && (y + [c])[1..] == y[1..] + [c];
      if x[0] == y[0] {
        SameTail(x[1..], y[1..], c);
      }
    }
  }

  /** Ordered non-empty strings have ordered first characters. */
  lemma FirstChars(x: string, y: string)
    requires |x| > 0 && |y| > 0 && Leq(x, y)
    ensures x[0] <= y[0]
  {
  }
}
