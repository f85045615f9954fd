/** The lexicographic order of strings, and what it makes of decimal numbers. */
module TextOrder {
  predicate StringLess(a: string, b: string) {
    if b == [] then false
    else if a == [] then true
    else if a[0] == b[0] then StringLess(a[1..], b[1..])
    else a[0] < b[0]
  }

  lemma {:induction false} StringOrder(a: string, b: string, c: string)
    ensures StringLess(a, b) && StringLess(b, c) ==> StringLess(a, c)
    ensures !StringLess(a, a)
    ensures a == b || StringLess(a, b) || StringLess(b, a)
    decreases |a| + |b| + |c|
  {
    if a != [] {
      StringOrder(a[1..], if b == [] then [] else b[1..], if c == [] then [] else c[1..]);
      if b != [] && a[0] == b[0] && a[1..] == b[1..] {
        assert a == [a[0]] + a[1..] && b == [b[0]] + b[1..];
      }
    }
  }

  /** The first difference decides; without one, the shorter string comes first. */
  lemma {:induction false} FirstDifference(p: string, x: char, s: string, y: char, t: string)
    requires x != y
    ensures StringLess(p + [x] + s, p + [y] + t) <==> x < y
    ensures StringLess(p, p + [y] + t)
    decreases |p|
  {
    var a, b := p + [x] + s, p + [y] + t;
    if p != [] {
      assert a[1..] == p[1..] + [x] + s && b[1..] == p[1..] + [y] + t;
      FirstDifference(p[1..], x, s, y, t);
    }
  }

  function Digit(d: nat): char
    requires d < 10
  {
    (d as char) + '0'
  }

  /** str(n) */
  function Decimal(n: nat): (s: string)
    ensures |s| >= 1
  {
    if n < 10 then [Digit(n)] else Decimal(n / 10) + [Digit(n % 10)]
  }

  lemma {:induction false} LessSnoc(s: string, c: char, t: string, d: char)
    requires |s| == |t|
    ensures StringLess(s + [c], t + [d]) <==> StringLess(s, t) || (s == t && c < d)
    decreases |s|
  {
    if s != [] {
      assert (s + [c])[1..] == s[1..] + [c] && (t + [d])[1..] == t[1..] + [d];
      LessSnoc(s[1..], c, t[1..], d);
      assert s == [s[0]] + s[1..] && t == [t[0]] + t[1..];
    }
  }

  /** Among numbers with equally many digits the textual order is the numeric one. */
  lemma {:induction false} DecimalOrder(a: nat, b: nat)
    requires |Decimal(a)| == |Decimal(b)|
    ensures StringLess(Decimal(a), Decimal(b)) <==> a < b
    ensures Decimal(a) == Decimal(b) <==> a == b
    decreases a + b
  {
    if a < 10 && b < 10 {
      assert [Digit(a)][1..] == [] && [Digit(b)][1..] == [];
    } else if a >= 10 && b >= 10 {
      var p, q := Decimal(a / 10), Decimal(b / 10);
      DecimalOrder(a / 10, b / 10);
      LessSnoc(p, Digit(a % 10), q, Digit(b % 10));
      if Decimal(a) == Decimal(b) {
        assert p == Decimal(a)[..|p|] == q;
        assert Digit(a % 10) == Decimal(a)[|p|] == Digit(b % 10);
      }
    }
  }
}
