/** The order Rust's `Ord for String` uses: byte-wise lexicographic order of
    the UTF-8 encodings, which coincides with lexicographic order of code
    points (a Dafny `char` is a Unicode scalar value). A proper prefix is
    smaller than the string it starts. Dafny's own `<` on sequences means
    "proper prefix", so the order is defined here. */
module Lex {

  /** `a < b` on Rust strings; a strict order, so never between equals. */
  predicate Less(a: string, b: string): (r: bool)
    ensures r ==> a != b
  {
    if |a| == 0 then |b| > 0
    else |b| > 0 && (a[0] < b[0] || (a[0] == b[0] && Less(a[1..], b[1..])))
  }

  /** `a <= b` on Rust strings: `!(b < a)`, which for this total order is
      `a < b` or equality. */
  predicate LessEq(a: string, b: string): (r: bool)
    ensures r <==> a == b || Less(a, b)
  {
    LessTotal(a, b);
    LessAsymmetric(a, b);
    !Less(b, a)
  }

  lemma {:induction false} LessIrreflexive(a: string)
    ensures !Less(a, a)
  {
    if |a| > 0 {
      LessIrreflexive(a[1..]);
    }
  }

  lemma {:induction false} LessAsymmetric(a: string, b: string)
    ensures Less(a, b) ==> !Less(b, a)
  {
    if |a| > 0 && |b| > 0 && a[0] == b[0] {
      LessAsymmetric(a[1..], b[1..]);
    }
  }

  lemma {:induction false} LessTransitive(a: string, b: string, c: string)
    requires Less(a, b) && Less(b, c)
    ensures Less(a, c)
  {
    if |a| > 0 && a[0] == b[0] && b[0] == c[0] {
      LessTransitive(a[1..], b[1..], c[1..]);
    }
  }

  lemma {:induction false} LessTotal(a: string, b: string)
    ensures a == b || Less(a, b) || Less(b, a)
  {
    if |a| > 0 && |b| > 0 && a[0] == b[0] {
      LessTotal(a[1..], b[1..]);
      if a[1..] == b[1..] {
        assert a == [a[0]] + a[1..] && b == [b[0]] + b[1..];
      }
    }
  }

  /** A common prefix does not decide the comparison. */
  lemma {:induction false} LessCommonPrefix(p: string, x: string, y: string)
    ensures Less(p + x, p + y) <==> Less(x, y)
  {
    if |p| > 0 {
      assert (p + x)[0] == p[0] == (p + y)[0];
      assert (p + x)[1..] == p[1..] + x;
      assert (p + y)[1..] == p[1..] + y;
      LessCommonPrefix(p[1..], x, y);
    } else {
      assert p + x == x && p + y == y;
    }
  }

  /** Between two strings of the same length, whatever follows does not
      change the outcome. */
  lemma {:induction false} LessAppend(a: string, b: string, x: string, y: string)
    requires |a| == |b| && Less(a, b)
    ensures Less(a + x, b + y)
  {
    if a[0] == b[0] && !(a[0] < b[0]) {
      assert (a + x)[1..] == a[1..] + x;
      assert (b + y)[1..] == b[1..] + y;
      LessAppend(a[1..], b[1..], x, y);
    }
  }

  /** A proper prefix is smaller. */
  lemma {:induction false} LessProperPrefix(p: string, x: string)
    requires |x| > 0
    ensures Less(p, p + x)
  {
    if |p| > 0 {
      assert (p + x)[1..] == p[1..] + x;
      LessProperPrefix(p[1..], x);
    }
  }
}
