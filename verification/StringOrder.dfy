/** The order strings are compared in: lexicographic, by code point. */
module StringOrder {

  predicate LexLe(a: string, b: string) {
    a == "" || (b != "" && (a[0] < b[0] || (a[0] == b[0] && LexLe(a[1..], b[1..]))))
  }

  lemma {:induction false} LexTotal(a: string, b: string)
    ensures LexLe(a, b) || LexLe(b, a)
    ensures LexLe(a, b) && LexLe(b, a) ==> a == b
  {
    if a != "" && b != "" && a[0] == b[0] {
      LexTotal(a[1..], b[1..]);
      assert a == [a[0]] + a[1..] && b == [b[0]] + b[1..];
    }
  }

  lemma {:induction false} LexTransitive(a: string, b: string, c: string)
    requires LexLe(a, b) && LexLe(b, c)
    ensures LexLe(a, c)
  {
    if a != "" && a[0] == b[0] && b[0] == c[0] {
      LexTransitive(a[1..], b[1..], c[1..]);
    }
  }

  /** One text is at most another when it is a prefix of it, or has the smaller character
      where they first differ. */
  lemma {:induction false} LexLeIff(a: string, b: string)
    ensures LexLe(a, b) <==> || a <= b
                             || exists k :: 0 <= k < |a| && k < |b| && a[..k] == b[..k] && a[k] < b[k]
  {
    if a != "" && b != "" && a[0] == b[0] {
      LexLeIff(a[1..], b[1..]);
      assert a == [a[0]] + a[1..] && b == [b[0]] + b[1..];
      if k :| 0 <= k < |a| && k < |b| && a[..k] == b[..k] && a[k] < b[k] {
        assert k > 0 && a[1..][k - 1] == a[k] && b[1..][k - 1] == b[k];
        assert a[1..][..k - 1] == a[..k][1..] && b[1..][..k - 1] == b[..k][1..];
      }
      if k :| 0 <= k < |a| - 1 && k < |b| - 1 && a[1..][..k] == b[1..][..k] && a[1..][k] < b[1..][k] {
        assert a[..k + 1] == [a[0]] + a[1..][..k] && b[..k + 1] == [b[0]] + b[1..][..k];
        assert a[k + 1] < b[k + 1];
      }
    } else if a != "" && b != "" {
      assert a[..0] == b[..0];
      if k :| 0 <= k < |a| && k < |b| && a[..k] == b[..k] && a[k] < b[k] {
        assert k > 0 ==> a[..k][0] == b[..k][0];
      }
    }
  }

  ghost predicate IsLeast(s: set<string>, m: string) {
    m in s && forall x :: x in s ==> LexLe(m, x)
  }

  method LeastOf(s: set<string>) returns (m: string)
    requires s != {}
    ensures IsLeast(s, m)
  {
    m :| m in s;
    var rest := s - {m};
    LexTotal(m, m);
    while rest != {}
      invariant m in s && rest <= s
      invariant forall x :: x in s && x !in rest ==> LexLe(m, x)
      decreases |rest|
    {
      var x :| x in rest;
      LexTotal(m, x);
      if !LexLe(m, x) {
        forall y | y in s && y !in rest
          ensures LexLe(x, y)
        {
          LexTransitive(x, m, y);
        }
        m := x;
        LexTotal(x, x);
      }
      rest := rest - {x};
    }
  }
}
