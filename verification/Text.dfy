/** Decimal digits and the order of strings. */
module Text {

  function Digit(n: nat): char
    requires n < 10
  {
    ('0' as int + n) as char
  }

  /** `{:0w}` of an unsigned number: decimal digits, padded with zeros to at least `w`. */
  function Padded(n: nat, w: nat): string
    decreases n, w
  {
    if n < 10 && w <= 1 then [Digit(n)]
    else Padded(n / 10, if w <= 1 then 1 else w - 1) + [Digit(n % 10)]
  }

  /** The order of strings: first difference decides, a proper prefix comes first. */
  predicate TextLess(a: string, b: string) {
    b != [] && (a == [] || a[0] < b[0] || (a[0] == b[0] && TextLess(a[1..], b[1..])))
  }

  /** The strings agree up to `k`, where the first ends or has the smaller character. */
  ghost predicate LessAt(a: string, b: string, k: nat) {
    k <= |a| && k < |b| && a[..k] == b[..k] && (k == |a| || a[k] < b[k])
  }

  /** The order is that of the first difference. */
  lemma {:induction false} TextLessMeans(a: string, b: string)
    ensures TextLess(a, b) <==> exists k: nat :: LessAt(a, b, k)
  {
    if b == [] {
    } else if a == [] {
      assert LessAt(a, b, 0);
    } else {
      TextLessMeans(a[1..], b[1..]);
      if a[0] < b[0] {
        assert LessAt(a, b, 0);
      } else if a[0] == b[0] {
        if k: nat :| LessAt(a[1..], b[1..], k) {
          LessAtCons(a, b, k);
        }
      }
      forall k: nat | LessAt(a, b, k) && a[0] >= b[0] ensures a[0] == b[0] && LessAt(a[1..], b[1..], k - 1) {
        assert a[..k][0] == b[..k][0];
        LessAtCons(a, b, k - 1);
      }
    }
  }

  lemma LessAtCons(a: string, b: string, k: nat)
    requires a != [] && b != []
    ensures LessAt(a, b, k + 1) <==> a[0] == b[0] && LessAt(a[1..], b[1..], k)
  {
    if k + 1 <= |a| && k + 1 < |b| {
      assert a[..k + 1] == [a[0]] + a[1..][..k] && b[..k + 1] == [b[0]] + b[1..][..k];
      if a[..k + 1] == b[..k + 1] {
        assert a[..k + 1][0] == b[..k + 1][0];
        assert a[1..][..k] == a[..k + 1][1..] == b[..k + 1][1..] == b[1..][..k];
      }
    }
  }

  /** The order is a strict total one. */
  lemma {:induction false} TextLessTotal(a: string, b: string)
    ensures TextLess(a, b) || a == b || TextLess(b, a)
    ensures !(TextLess(a, b) && TextLess(b, a)) && !TextLess(a, a)
  {
    if a != [] {
      TextLessTotal(a[1..], if b == [] then b else b[1..]);
      if b != [] {
        assert a == [a[0]] + a[1..] && b == [b[0]] + b[1..];
      }
    }
  }

  lemma {:induction false} TextLessTransitive(a: string, b: string, c: string)
    requires TextLess(a, b) && TextLess(b, c)
    ensures TextLess(a, c)
  {
    if a != [] && a[0] == b[0] == c[0] {
      TextLessTransitive(a[1..], b[1..], c[1..]);
    }
  }

  /** Texts of equal length are compared before what follows them. */
  lemma {:induction false} TextLessConcat(a: string, b: string, x: string, y: string)
    requires |a| == |b|
    ensures TextLess(a + x, b + y) <==> TextLess(a, b) || (a == b && TextLess(x, y))
    ensures !(TextLess(a, b) && a == b)
  {
    if a == [] {
      assert a + x == x && b + y == y;
    } else {
      TextLessConcat(a[1..], b[1..], x, y);
      assert (a + x)[1..] == a[1..] + x && (b + y)[1..] == b[1..] + y;
      assert a == [a[0]] + a[1..] && b == [b[0]] + b[1..];
    }
  }

  /** Padded numbers of equal length compare as numbers do. */
  lemma {:induction false} PaddedOrder(m: nat, n: nat, w: nat)
    requires |Padded(m, w)| == |Padded(n, w)|
    ensures TextLess(Padded(m, w), Padded(n, w)) <==> m < n
    ensures Padded(m, w) == Padded(n, w) <==> m == n
    decreases m + n, w
  {
    if (m < 10 && w <= 1) || (n < 10 && w <= 1) {
      PaddedNonEmpty(m / 10, 1);
      PaddedNonEmpty(n / 10, 1);
      assert m < 10 && n < 10;
      assert Padded(m, w) == [Digit(m)] && Padded(n, w) == [Digit(n)];
    } else {
      var v := if w <= 1 then 1 else w - 1;
      PaddedOrder(m / 10, n / 10, v);
      var (p, q) := (Padded(m / 10, v), Padded(n / 10, v));
      var (d, e) := ([Digit(m % 10)], [Digit(n % 10)]);
      TextLessConcat(p, q, d, e);
      assert Padded(m, w) == p + d && Padded(n, w) == q + e;
      assert p + d == q + e <==> p == q && d == e by {
        if p + d == q + e {
          assert p == (p + d)[..|p|] && d == (p + d)[|p|..];
        }
      }
    }
  }

  lemma {:induction false} PaddedNonEmpty(n: nat, w: nat)
    ensures |Padded(n, w)| >= 1
  {
  }

  /** The number a string of decimal digits stands for. */
  function Number(s: string): int {
    if s == [] then 0 else Number(s[..|s| - 1]) * 10 + (s[|s| - 1] as int - '0' as int)
  }

  ghost predicate AllDigits(s: string) {
    forall i :: 0 <= i < |s| ==> '0' <= s[i] <= '9'
  }

  lemma NumberSnoc(s: string, c: char)
    ensures Number(s + [c]) == Number(s) * 10 + (c as int - '0' as int)
  {
    assert (s + [c])[..|s|] == s;
  }

  /** Padded numbers read back, and are as wide as asked for. */
  lemma {:induction false} PaddedReads(n: nat, w: nat)
    ensures Number(Padded(n, w)) == n && AllDigits(Padded(n, w)) && |Padded(n, w)| >= w
    decreases n, w
  {
    if n < 10 && w <= 1 {
      NumberSnoc([], Digit(n));
      assert [] + [Digit(n)] == [Digit(n)];
    } else {
      var v := if w <= 1 then 1 else w - 1;
      PaddedReads(n / 10, v);
      NumberSnoc(Padded(n / 10, v), Digit(n % 10));
    }
  }

  /** Unpadded, they have no leading zero. */
  lemma {:induction false} PaddedLeads(n: nat)
    requires n > 0
    ensures |Padded(n, 1)| >= 1 && Padded(n, 1)[0] != '0'
  {
    if n >= 10 {
      PaddedLeads(n / 10);
    }
  }
}
