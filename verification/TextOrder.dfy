/**
 Text columns as SQLite compares them: byte by byte, a proper prefix coming first.
 All text in the model is ASCII, so a byte is a `char`.
 */
module TextOrder {

  predicate Less(a: string, b: string) {
    if |b| == 0 then false
    else if |a| == 0 then true
    else if a[0] != b[0] then a[0] < b[0]
    else Less(a[1..], b[1..])
  }

  /** Behind prefixes of equal width the order is decided by the prefixes first. */
  lemma {:induction false} LessConcat(p: string, q: string, s: string, t: string)
    requires |p| == |q|
    ensures Less(p + s, q + t) <==> Less(p, q) || (p == q && Less(s, t))
  {
    if p == [] {
      assert p + s == s && q + t == t;
    } else {
      assert (p + s)[1..] == p[1..] + s && (q + t)[1..] == q[1..] + t;
      assert p == q <==> p[0] == q[0] && p[1..] == q[1..] by {
        assert p == [p[0]] + p[1..] && q == [q[0]] + q[1..];
      }
      LessConcat(p[1..], q[1..], s, t);
    }
  }

  lemma {:induction false} LessIsStrict(a: string, b: string)
    ensures !(Less(a, b) && Less(b, a))
    ensures !Less(a, a)
  {
    if a != [] && b != [] {
      LessIsStrict(a[1..], b[1..]);
    } else if a != [] {
      LessIsStrict(a[1..], b);
    }
  }

  lemma {:induction false} LessIsTotal(a: string, b: string)
    ensures Less(a, b) || a == b || Less(b, a)
  {
    if a != [] && b != [] && a[0] == b[0] {
      LessIsTotal(a[1..], b[1..]);
      assert a == [a[0]] + a[1..] && b == [b[0]] + b[1..];
    }
  }

  lemma {:induction false} LessIsTransitive(a: string, b: string, c: string)
    requires Less(a, b) && Less(b, c)
    ensures Less(a, c)
  {
    if a != [] && a[0] == b[0] == c[0] {
      LessIsTransitive(a[1..], b[1..], c[1..]);
    }
  }

  // ---------------------------------------------------------------- decimal digits

  function Pow10(w: nat): (p: nat)
    ensures p > 0
  {
    if w == 0 then 1 else 10 * Pow10(w - 1)
  }

  function Digit(d: nat): (c: char)
    requires d < 10
    ensures '0' <= c <= '9'
  {
    '0' + d as char
  }

  lemma DigitOrder(d: nat, e: nat)
    requires d < 10 && e < 10
    ensures Digit(d) < Digit(e) <==> d < e
    ensures Digit(d) == Digit(e) <==> d == e
  {
  }

  /** The last `w` decimal digits of `n`, zero-padded on the left. */
  function Pad(n: nat, w: nat): (s: string)
    ensures |s| == w
    ensures forall i :: 0 <= i < w ==> '0' <= s[i] <= '9'
  {
    if w == 0 then "" else Pad(n / 10, w - 1) + [Digit(n % 10)]
  }

  predicate IsDigit(c: char) {
    '0' <= c <= '9'
  }

  predicate Digits(s: string) {
    forall i :: 0 <= i < |s| ==> IsDigit(s[i])
  }

  /** The number a run of digits writes. */
  function NumberIn(s: string): nat
    requires Digits(s)
  {
    if s == "" then 0 else 10 * NumberIn(s[..|s| - 1]) + (s[|s| - 1] - '0') as nat
  }

  lemma NumberOfAppend(s: string, d: nat)
    requires Digits(s) && d < 10
    ensures Digits(s + [Digit(d)]) && NumberIn(s + [Digit(d)]) == 10 * NumberIn(s) + d
  {
    assert (s + [Digit(d)])[..|s|] == s;
  }

  /** Reading back a fixed-width field that is wide enough gives the number written. */
  lemma {:induction false} PadReads(n: nat, w: nat)
    requires n < Pow10(w)
    ensures NumberIn(Pad(n, w)) == n
  {
    if w > 0 {
      PadReads(n / 10, w - 1);
      NumberOfAppend(Pad(n / 10, w - 1), n % 10);
      hide NumberIn, Digit;
    }
  }

  lemma PadLess(n: nat, m: nat, w: nat)
    requires n < m < Pow10(w)
    ensures Less(Pad(n, w), Pad(m, w))
  {
    if w > 0 {
      var p, q := Pad(n / 10, w - 1), Pad(m / 10, w - 1);
      LessConcat(p, q, [Digit(n % 10)], [Digit(m % 10)]);
      if n / 10 < m / 10 {
        PadLess(n / 10, m / 10, w - 1);
      } else {
        DigitOrder(n % 10, m % 10);
      }
    }
  }

  /** Fixed-width decimal fields are ordered as the numbers they write. */
  lemma PadOrder(n: nat, m: nat, w: nat)
    requires n < Pow10(w) && m < Pow10(w)
    ensures Less(Pad(n, w), Pad(m, w)) <==> n < m
    ensures Pad(n, w) == Pad(m, w) <==> n == m
  {
    LessIsStrict(Pad(n, w), Pad(m, w));
    if n < m { PadLess(n, m, w); }
    if m < n { PadLess(m, n, w); }
  }
}
