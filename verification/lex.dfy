/** Python's ordering of `str` values: code point by code point from the
    left, with a proper prefix sorting before the longer string. Entry
    dates and month keys are compared this way. */
module Lex {

  /** Python's `a <= b` on strings. */
  predicate LexLe(a: string, b: string)
  {
    |a| == 0 || (|b| > 0 && (a[0] < b[0] || (a[0] == b[0] && LexLe(a[1..], b[1..]))))
  }

  /** Python's `a < b` on strings. */
  predicate LexLt(a: string, b: string)
  {
    LexLe(a, b) && a != b
  }

  lemma {:induction false} LexLeReflexive(a: string)
    ensures LexLe(a, a)
  {
    if |a| > 0 {
      LexLeReflexive(a[1..]);
    }
  }

  lemma {:induction false} LexLeTotal(a: string, b: string)
    ensures LexLe(a, b) || LexLe(b, a)
  {
    if |a| > 0 && |b| > 0 && a[0] == b[0] {
      LexLeTotal(a[1..], b[1..]);
    }
  }

  lemma {:induction false} LexLeAntisymmetric(a: string, b: string)
    requires LexLe(a, b) && LexLe(b, a)
    ensures a == b
  {
    if |a| > 0 {
      LexLeAntisymmetric(a[1..], b[1..]);
      assert a == [a[0]] + a[1..];
      assert b == [b[0]] + b[1..];
    }
  }

  lemma {:induction false} LexLeTransitive(a: string, b: string, c: string)
    requires LexLe(a, b) && LexLe(b, c)
    ensures LexLe(a, c)
  {
    if |a| > 0 && a[0] == b[0] && b[0] == c[0] {
      LexLeTransitive(a[1..], b[1..], c[1..]);
    }
  }

  /** `<` is the negation of the converse of `<=`. */
  lemma LexLtIsNotGe(a: string, b: string)
    ensures LexLt(a, b) <==> !LexLe(b, a)
  {
    LexLeTotal(a, b);
    if LexLe(b, a) && LexLe(a, b) {
      LexLeAntisymmetric(a, b);
    }
    if a == b {
      LexLeReflexive(a);
    }
  }

  lemma LexLtLeTransitive(a: string, b: string, c: string)
    requires LexLt(a, b) && LexLe(b, c)
    ensures LexLt(a, c)
  {
    LexLeTransitive(a, b, c);
    if a == c {
      LexLeAntisymmetric(a, b);
    }
  }

  lemma LexLeLtTransitive(a: string, b: string, c: string)
    requires LexLe(a, b) && LexLt(b, c)
    ensures LexLt(a, c)
  {
    LexLeTransitive(a, b, c);
    if a == c {
      LexLeAntisymmetric(b, c);
    }
  }

  /** Comparing two strings that start with blocks of equal length compares
      the blocks first and the rest only when the blocks are equal. */
  lemma {:induction false} LexLeConcat(x: string, y: string, x2: string, y2: string)
    requires |x| == |x2|
    ensures LexLe(x + y, x2 + y2) <==> LexLt(x, x2) || (x == x2 && LexLe(y, y2))
  {
    if |x| == 0 {
      assert x + y == y;
      assert x2 + y2 == y2;
    } else {
      assert (x + y)[0] == x[0] && (x + y)[1..] == x[1..] + y;
      assert (x2 + y2)[0] == x2[0] && (x2 + y2)[1..] == x2[1..] + y2;
      LexLeConcat(x[1..], y, x2[1..], y2);
      assert x == [x[0]] + x[1..];
      assert x2 == [x2[0]] + x2[1..];
      assert x == x2 <==> x[0] == x2[0] && x[1..] == x2[1..];
    }
  }
}
