/** Decimal notation of natural numbers, and dotted version numbers compared as text. */
module Decimals {

  function DecimalDigit(d: nat): char
    requires d < 10
  {
    ['0', '1', '2', '3', '4', '5', '6', '7', '8', '9'][d]
  }

  function Decimal(n: nat): string {
    if n < 10 then [DecimalDigit(n)] else Decimal(n / 10) + [DecimalDigit(n % 10)]
  }

  /** The first digit. */
  function Leading(n: nat): (d: nat)
    ensures d < 10 && (n > 0 ==> d > 0)
  {
    if n < 10 then n else Leading(n / 10)
  }

  lemma {:induction false} DecimalInjective(m: nat, n: nat)
    requires Decimal(m) == Decimal(n)
    ensures m == n
  {
    var s, t := Decimal(m), Decimal(n);
    DecimalLength(m);
    DecimalLength(n);
    assert s[|s| - 1] == t[|t| - 1];
    if m >= 10 && n >= 10 {
      assert s[..|s| - 1] == Decimal(m / 10) && t[..|t| - 1] == Decimal(n / 10);
      DecimalInjective(m / 10, n / 10);
    }
  }

  lemma {:induction false} DecimalLength(n: nat)
    ensures |Decimal(n)| >= 1 && (|Decimal(n)| == 1 <==> n < 10)
    ensures Decimal(n)[|Decimal(n)| - 1] == DecimalDigit(n % 10)
  {
    if n >= 10 { DecimalLength(n / 10); }
  }

  lemma {:induction false} DecimalDigits(n: nat)
    ensures forall i :: 0 <= i < |Decimal(n)| ==> '0' <= Decimal(n)[i] <= '9'
  {
    if n >= 10 { DecimalDigits(n / 10); }
  }

  lemma {:induction false} DecimalHead(n: nat)
    ensures |Decimal(n)| >= 1 && Decimal(n)[0] == DecimalDigit(Leading(n))
  {
    if n >= 10 { DecimalHead(n / 10); }
  }

  /** Texts joined by a separator that the second parts lack have equal parts. */
  lemma SplitAtLast(c: char, a: string, d: string, a': string, d': string)
    requires c !in d && c !in d' && a + [c] + d == a' + [c] + d'
    ensures a == a' && d == d'
  {
    var s := a + [c] + d;
    LastSeparator(c, s, a, d);
    LastSeparator(c, s, a', d');
    assert s[..|a|] == a && s[..|a|] == a';
    assert s[|a| + 1..] == d && s[|a| + 1..] == d';
  }

  lemma LastSeparator(c: char, s: string, a: string, d: string)
    requires s == a + [c] + d && c !in d
    ensures |a| < |s| && s[|a|] == c && forall i :: |a| < i < |s| ==> s[i] != c
  {
    assert forall i :: |a| < i < |s| ==> s[i] == d[i - |a| - 1];
  }

  // ---------- dotted versions

  function Dotted(a: nat, b: nat, c: nat): string {
    Decimal(a) + "." + Decimal(b) + "." + Decimal(c)
  }

  lemma DottedInjective(a: nat, b: nat, c: nat, x: nat, y: nat, z: nat)
    requires Dotted(a, b, c) == Dotted(x, y, z)
    ensures a == x && b == y && c == z
  {
    DecimalDigits(b);
    DecimalDigits(c);
    DecimalDigits(y);
    DecimalDigits(z);
    SplitAtLast('.', Decimal(a) + "." + Decimal(b), Decimal(c), Decimal(x) + "." + Decimal(y), Decimal(z));
    SplitAtLast('.', Decimal(a), Decimal(b), Decimal(x), Decimal(y));
    DecimalInjective(a, x);
    DecimalInjective(b, y);
    DecimalInjective(c, z);
  }

  /** Version a.b.c is at most x.y.z as numbers, component by component. */
  predicate NumericLe(a: nat, b: nat, c: nat, x: nat, y: nat, z: nat) {
    a < x || (a == x && (b < y || (b == y && c <= z)))
  }

  /** The byte order of UTF-8 text, which is the order of its code points. */
  predicate LexLe(s: string, t: string) {
    s == [] || (t != [] && (s[0] < t[0] || (s[0] == t[0] && LexLe(s[1..], t[1..]))))
  }

  lemma {:induction false} LexLeTransitive(s: string, t: string, u: string)
    requires LexLe(s, t) && LexLe(t, u)
    ensures LexLe(s, u)
  {
    if s != [] && t[0] == s[0] && u[0] == t[0] { LexLeTransitive(s[1..], t[1..], u[1..]); }
  }

  /** The text order: a prefix, or smaller at the first difference. */
  lemma {:induction false} LexLeIff(s: string, t: string)
    ensures LexLe(s, t) <==>
      s <= t || exists k :: 0 <= k < |s| && k < |t| && s[..k] == t[..k] && s[k] < t[k]
  {
    if s != [] && t != [] && s[0] == t[0] {
      LexLeIff(s[1..], t[1..]);
      assert s == [s[0]] + s[1..] && t == [t[0]] + t[1..];
      if k :| 0 <= k < |s[1..]| && k < |t[1..]| && s[1..][..k] == t[1..][..k] && s[1..][k] < t[1..][k] {
        assert s[..k + 1] == [s[0]] + s[1..][..k] && t[..k + 1] == [t[0]] + t[1..][..k];
      }
      if k :| 0 <= k < |s| && k < |t| && s[..k] == t[..k] && s[k] < t[k] {
        assert s[1..][..k - 1] == s[..k][1..] && t[1..][..k - 1] == t[..k][1..];
      }
    } else if s != [] && t != [] && s[0] < t[0] {
      assert s[..0] == t[..0];
    } else if s != [] && t != [] {
      forall k | 0 < k < |s| && k < |t| ensures s[..k] != t[..k] {
        assert s[..k][0] == s[0] && t[..k][0] == t[0];
      }
    }
  }

  lemma DigitOrder(d: nat, e: nat)
    requires d < 10 && e < 10
    ensures DecimalDigit(d) < DecimalDigit(e) <==> d < e
    ensures DecimalDigit(d) == DecimalDigit(e) <==> d == e
  {
  }

  /** A number against one digit: a longer number is below it only by its first digit. */
  lemma ComponentOrder(n: nat, d: nat, s: string, t: string)
    requires d < 10 && (s == [] <==> t == []) && (s != [] ==> s[0] == t[0] < '0')
    ensures LexLe(Decimal(n) + s, [DecimalDigit(d)] + t)
        <==> if n < 10 then n < d || (n == d && LexLe(s, t)) else Leading(n) < d
  {
    var u, v := Decimal(n) + s, [DecimalDigit(d)] + t;
    DecimalHead(n);
    DecimalLength(n);
    DecimalDigits(n);
    DigitOrder(Leading(n), d);
    assert v[1..] == t;
    if n < 10 {
      assert u[1..] == s;
    } else {
      assert u[1..][0] == Decimal(n)[1];
    }
  }

  /** A required component with more digits whose first digit is smaller. */
  predicate LooksSmaller(n: nat, d: nat) {
    n >= 10 && Leading(n) < d
  }

  /** Against a version of single digits, the text order is the numeric order unless the first
      differing component of the required version has several digits and a smaller first digit. */
  lemma TextOrderIff(a: nat, b: nat, c: nat, x: nat, y: nat, z: nat)
    requires x < 10 && y < 10 && z < 10
    ensures (LexLe(Dotted(a, b, c), Dotted(x, y, z)) <==> NumericLe(a, b, c, x, y, z))
        <==> !(LooksSmaller(a, x) || (a == x && (LooksSmaller(b, y) || (b == y && LooksSmaller(c, z)))))
  {
    var s1, t1 := "." + Decimal(c), "." + Decimal(z);
    var s2, t2 := "." + (Decimal(b) + s1), "." + ([DecimalDigit(y)] + t1);
    DottedParts(a, b, c, x, y, z);
    ComponentOrder(a, x, s2, t2);
    AfterDot(Decimal(b) + s1, [DecimalDigit(y)] + t1);
    ComponentOrder(b, y, s1, t1);
    AfterDot(Decimal(c), [DecimalDigit(z)]);
    LastComponent(c, z);
    CombineOrders(a, b, c, x, y, z, LexLe(Dotted(a, b, c), Dotted(x, y, z)),
                  LexLe(Decimal(b) + s1, [DecimalDigit(y)] + t1), LexLe(Decimal(c), [DecimalDigit(z)]));
  }

  lemma DottedParts(a: nat, b: nat, c: nat, x: nat, y: nat, z: nat)
    requires x < 10 && y < 10 && z < 10
    ensures Dotted(a, b, c) == Decimal(a) + ("." + (Decimal(b) + ("." + Decimal(c))))
    ensures Dotted(x, y, z) == [DecimalDigit(x)] + ("." + ([DecimalDigit(y)] + ("." + Decimal(z))))
    ensures Decimal(z) == [DecimalDigit(z)]
  {
    JoinedRight(Decimal(a), Decimal(b), Decimal(c));
    JoinedRight([DecimalDigit(x)], [DecimalDigit(y)], [DecimalDigit(z)]);
  }

  lemma JoinedRight(a: string, b: string, c: string)
    ensures a + "." + b + "." + c == a + ("." + (b + ("." + c)))
  {
    var dot := ".";
    assert a + dot + b + dot + c == a + (dot + (b + (dot + c)));
  }

  lemma LastComponent(c: nat, z: nat)
    requires z < 10
    ensures LexLe(Decimal(c), [DecimalDigit(z)]) <==> if c < 10 then c <= z else Leading(c) < z
  {
    assert Decimal(c) + [] == Decimal(c) && [DecimalDigit(z)] + [] == [DecimalDigit(z)];
    ComponentOrder(c, z, [], []);
  }

  lemma CombineOrders(a: nat, b: nat, c: nat, x: nat, y: nat, z: nat, all: bool, two: bool, last: bool)
    requires x < 10 && y < 10 && z < 10
    requires all <==> if a < 10 then a < x || (a == x && two) else Leading(a) < x
    requires two <==> if b < 10 then b < y || (b == y && last) else Leading(b) < y
    requires last <==> if c < 10 then c <= z else Leading(c) < z
    ensures (all <==> NumericLe(a, b, c, x, y, z))
        <==> !(LooksSmaller(a, x) || (a == x && (LooksSmaller(b, y) || (b == y && LooksSmaller(c, z)))))
  {
  }

  lemma AfterDot(s: string, t: string)
    ensures LexLe("." + s, "." + t) <==> LexLe(s, t)
  {
    assert ("." + s)[1..] == s && ("." + t)[1..] == t;
  }
}
