/** The order in which call_at compares coordinate vectors: word by word, a proper prefix being
    smaller (retracemodule.c:338-385). */
module Lexicographic {

  predicate LexLess(a: seq<nat>, b: seq<nat>) {
    if b == [] then false
    else if a == [] then true
    else a[0] < b[0] || (a[0] == b[0] && LexLess(a[1..], b[1..]))
  }

  predicate LexLeq(a: seq<nat>, b: seq<nat>) {
    a == b || LexLess(a, b)
  }

  lemma {:induction false} LexTransitive(a: seq<nat>, b: seq<nat>, c: seq<nat>)
    requires LexLess(a, b) && LexLess(b, c)
    ensures LexLess(a, c)
  {
    if a != [] && a[0] == b[0] == c[0] {
      LexTransitive(a[1..], b[1..], c[1..]);
    }
  }

  lemma {:induction false} LexLeqTransitive(a: seq<nat>, b: seq<nat>, c: seq<nat>)
    requires LexLeq(a, b) && LexLeq(b, c)
    ensures LexLeq(a, c) && (LexLess(a, b) || LexLess(b, c) ==> LexLess(a, c))
  {
    if a != b && b != c {
      LexTransitive(a, b, c);
    }
  }

  lemma {:induction false} LexAsymmetric(a: seq<nat>, b: seq<nat>)
    requires LexLess(a, b)
    ensures !LexLeq(b, a)
  {
    if a != [] && a[0] == b[0] {
      LexAsymmetric(a[1..], b[1..]);
    }
  }

  lemma {:induction false} LexTotal(a: seq<nat>, b: seq<nat>)
    ensures LexLess(a, b) || a == b || LexLess(b, a)
  {
    if a != [] && b != [] && a[0] == b[0] {
      LexTotal(a[1..], b[1..]);
      assert a == [a[0]] + a[1..] && b == [b[0]] + b[1..];
    }
  }

  lemma {:induction false} LexCommonPrefix(p: seq<nat>, a: seq<nat>, b: seq<nat>)
    ensures LexLess(p + a, p + b) <==> LexLess(a, b)
  {
    if p == [] {
      assert p + a == a && p + b == b;
    } else {
      LexCommonPrefix(p[1..], a, b);
      assert (p + a)[1..] == p[1..] + a && (p + b)[1..] == p[1..] + b;
    }
  }

  lemma {:induction false} LexExtend(a: seq<nat>, b: seq<nat>)
    ensures LexLeq(a, a + b) && (b != [] ==> LexLess(a, a + b))
  {
    LexCommonPrefix(a, [], b);
    assert a + [] == a;
    assert b == [] ==> a + b == a;
  }

  /** Raising the last word outweighs anything appended to the old one. */
  lemma {:induction false} LexBump(p: seq<nat>, x: nat, y: nat, rest: seq<nat>, rest': seq<nat>)
    requires x < y
    ensures LexLess(p + [x] + rest, p + [y] + rest')
  {
    assert p + [x] + rest == p + ([x] + rest) && p + [y] + rest' == p + ([y] + rest');
    LexCommonPrefix(p, [x] + rest, [y] + rest');
  }
}
