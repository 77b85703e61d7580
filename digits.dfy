/**
 * Positional numerals: the big-endian value of a digit sequence in a base,
 * its minimal digit expansion and its fixed-width expansion. Bytes (base 256),
 * Base58 digits, bit strings (base 2) and the decimal fields of a timestamp
 * are all instances of these.
 */
module Digits {

  function Pow(b: nat, e: nat): (r: nat)
    ensures b > 0 ==> r > 0
  {
    if e == 0 then 1 else b * Pow(b, e - 1)
  }

  /** Every digit of `s` is below `b`. */
  predicate AllBelow(s: seq<nat>, b: nat)
  {
    forall i :: 0 <= i < |s| ==> s[i] < b
  }

  /** `n` zero digits. */
  function Zeros(n: nat): seq<nat>
  {
    seq(n, _ => 0)
  }

  /** Big-endian value of `s` in base `b`, read most significant digit first (Horner). */
  function Value(s: seq<nat>, b: nat): nat
  {
    if s == [] then 0 else Value(s[..|s| - 1], b) * b + s[|s| - 1]
  }

  /** The minimal big-endian expansion of `n`: zero has no digits and a nonzero value has no leading zero digit. */
  function ToDigits(n: nat, b: nat): (r: seq<nat>)
    requires b >= 2
    ensures AllBelow(r, b)
    ensures n == 0 <==> r == []
    ensures n > 0 ==> r[0] != 0
    decreases n
  {
    if n == 0 then [] else ToDigits(n / b, b) + [n % b]
  }

  /** The last `w` big-endian digits of `n` in base `b` (zero-padded on the left). */
  function FixedDigits(n: nat, b: nat, w: nat): (r: seq<nat>)
    requires b >= 2
    ensures |r| == w && AllBelow(r, b)
  {
    if w == 0 then [] else FixedDigits(n / b, b, w - 1) + [n % b]
  }

  // ---------------------------------------------------------------------------
  // Arithmetic helpers

  lemma DivModUnique(a: nat, b: nat, q: nat, r: nat)
    requires b > 0 && r < b && a == q * b + r
    ensures a / b == q && a % b == r
  {
    var q', r' := a / b, a % b;
    assert a == q' * b + r';
    if q' > q {
      MulLeftMono(q + 1, q', b);
      assert false;
    } else if q' < q {
      MulLeftMono(q' + 1, q, b);
      assert false;
    }
  }

  lemma DivModSplit(n: nat, b: nat)
    requires b > 0
    ensures n == (n / b) * b + n % b
  {
  }

  lemma MulLeftMono(x: nat, y: nat, c: nat)
    requires x <= y
    ensures x * c <= y * c
  {
  }

  lemma MulAssoc(x: nat, y: nat, z: nat)
    ensures x * (y * z) == (x * y) * z
  {
  }

  lemma MulDistrib(x: nat, y: nat, z: nat)
    ensures (x + y) * z == x * z + y * z
  {
  }

  lemma MulComm(x: nat, y: nat)
    ensures x * y == y * x
  {
  }

  /** Integer division by a base of at least 2 makes a positive number smaller. */
  lemma DivLess(n: nat, b: nat)
    requires b >= 2 && n > 0
    ensures n / b < n
  {
    DivModSplit(n, b);
    MulLeftMono(2, b, n / b);
  }

  lemma DivDiv(n: nat, a: nat, c: nat)
    requires a > 0 && c > 0
    ensures n / a / c == n / (a * c)
  {
    var q1, r1 := n / a, n % a;
    var q2, r2 := q1 / c, q1 % c;
    DivModSplit(n, a);
    DivModSplit(q1, c);
    assert n == q2 * (a * c) + (r2 * a + r1) by {
      MulDistrib(q2 * c, r2, a);
      MulAssoc(q2, c, a);
      MulComm(c, a);
    }
    assert r2 * a + r1 < a * c by {
      MulLeftMono(r2, c - 1, a);
      MulDistrib(c - 1, 1, a);
      MulComm(c, a);
    }
    DivModUnique(n, a * c, q2, r2 * a + r1);
  }

  /** Dividing by b and then by b^e is dividing by b^(e+1). */
  lemma DivPow(n: nat, b: nat, e: nat)
    requires b > 0
    ensures n / b / Pow(b, e) == n / Pow(b, e + 1)
  {
    DivDiv(n, b, Pow(b, e));
  }

  lemma {:induction false} PowAdd(b: nat, m: nat, n: nat)
    ensures Pow(b, m + n) == Pow(b, m) * Pow(b, n)
    decreases m
  {
    if m > 0 {
      var x, y := Pow(b, m - 1), Pow(b, n);
      assert Pow(b, m + n) == b * Pow(b, m - 1 + n);
      PowAdd(b, m - 1, n);
      MulAssoc(b, x, y);
    }
  }

  lemma {:induction false} PowMono(b: nat, m: nat, n: nat)
    requires b > 0 && m <= n
    ensures Pow(b, m) <= Pow(b, n)
    decreases n
  {
    if m < n {
      PowMono(b, m, n - 1);
      MulLeftMono(1, b, Pow(b, n - 1));
    }
  }

  /** 256^k == 2^(8k): a byte string of k bytes carries exactly 8k bits. */
  lemma {:induction false} BytePow(k: nat)
    ensures Pow(256, k) == Pow(2, 8 * k)
  {
    if k > 0 {
      BytePow(k - 1);
      PowAdd(2, 8, 8 * (k - 1));
      assert Pow(2, 8) == 256;
    }
  }

  // ---------------------------------------------------------------------------
  // Value and its expansions

  /** Reading one more digit at the end shifts the value by one place. */
  lemma ValueSnoc(s: seq<nat>, d: nat, b: nat)
    ensures Value(s + [d], b) == Value(s, b) * b + d
  {
    assert (s + [d])[..|s|] == s;
  }

  /** Reading a digit in front of `s` adds it at weight b^|s|. */
  lemma {:induction false} ValueCons(d: nat, s: seq<nat>, b: nat)
    ensures Value([d] + s, b) == d * Pow(b, |s|) + Value(s, b)
    decreases |s|
  {
    if s != [] {
      var init, last := s[..|s| - 1], s[|s| - 1];
      var p, v := Pow(b, |init|), Value(init, b);
      assert Value([d] + s, b) == Value([d] + init, b) * b + last by {
        assert ([d] + s)[..|s|] == [d] + init;
      }
      ValueCons(d, init, b);
      assert (d * p + v) * b == d * (b * p) + v * b by {
        MulDistrib(d * p, v, b);
        MulAssoc(d, p, b);
        MulComm(p, b);
      }
      assert Value(s, b) == v * b + last;
    }
  }

  /** A value of |s| digits below b fits in |s| digits. */
  lemma {:induction false} ValueBound(s: seq<nat>, b: nat)
    requires b > 0 && AllBelow(s, b)
    ensures Value(s, b) < Pow(b, |s|)
    decreases |s|
  {
    if s != [] {
      var init := s[..|s| - 1];
      var p := Pow(b, |init|);
      assert Value(s, b) == Value(init, b) * b + s[|s| - 1];
      assert Pow(b, |s|) == b * p;
      ValueBound(init, b);
      MulLeftMono(Value(init, b), p - 1, b);
      MulDistrib(p - 1, 1, b);
      MulComm(b, p);
    }
  }

  /** A digit string with a nonzero leading digit has a nonzero value. */
  lemma {:induction false} ValuePositive(s: seq<nat>, b: nat)
    requires b > 0 && s != [] && s[0] != 0
    ensures Value(s, b) > 0
    decreases |s|
  {
    if |s| > 1 {
      ValuePositive(s[..|s| - 1], b);
      MulLeftMono(1, Value(s[..|s| - 1], b), b);
    }
  }

  /** The minimal expansion reads back as the number it expands. */
  lemma {:induction false} ValueOfToDigits(n: nat, b: nat)
    requires b >= 2
    ensures Value(ToDigits(n, b), b) == n
    decreases n
  {
    if n > 0 {
      var q, r := n / b, n % b;
      DivLess(n, b);
      ValueOfToDigits(q, b);
      ValueSnoc(ToDigits(q, b), r, b);
      DivModSplit(n, b);
    }
  }

  /** A digit string without a leading zero is the minimal expansion of its value. */
  lemma {:induction false} ToDigitsOfValue(s: seq<nat>, b: nat)
    requires b >= 2 && AllBelow(s, b) && (s == [] || s[0] != 0)
    ensures ToDigits(Value(s, b), b) == s
    decreases |s|
  {
    if s != [] {
      var init := s[..|s| - 1];
      ValuePositive(s, b);
      DivModUnique(Value(s, b), b, Value(init, b), s[|s| - 1]);
      if init != [] {
        ToDigitsOfValue(init, b);
      }
      assert s == init + [s[|s| - 1]];
    }
  }

  /** A fixed-width expansion of a number that fits reads back as that number. */
  lemma {:induction false} ValueOfFixed(n: nat, b: nat, w: nat)
    requires b >= 2 && n < Pow(b, w)
    ensures Value(FixedDigits(n, b, w), b) == n
    decreases w
  {
    if w > 0 {
      var q, p := n / b, Pow(b, w - 1);
      var f := FixedDigits(n, b, w);
      assert Value(f, b) == Value(FixedDigits(q, b, w - 1), b) * b + n % b by {
        assert f[..w - 1] == FixedDigits(q, b, w - 1);
      }
      DivModSplit(n, b);
      assert q < p by {
        assert Pow(b, w) == b * p;
        if q >= p {
          MulLeftMono(p, q, b);
          MulComm(p, b);
        }
      }
      ValueOfFixed(q, b, w - 1);
      assert Value(f, b) == q * b + n % b;
    } else {
      assert Pow(b, w) == 1;
    }
  }

  /** Any digit string is the fixed-width expansion of its value at its own width. */
  lemma {:induction false} FixedOfValue(s: seq<nat>, b: nat)
    requires b >= 2 && AllBelow(s, b)
    ensures FixedDigits(Value(s, b), b, |s|) == s
    decreases |s|
  {
    if s != [] {
      var init := s[..|s| - 1];
      DivModUnique(Value(s, b), b, Value(init, b), s[|s| - 1]);
      FixedOfValue(init, b);
      assert s == init + [s[|s| - 1]];
    }
  }

  /** The leading k of w fixed digits are the fixed expansion of n with the low w - k digits dropped. */
  lemma {:induction false} FixedPrefix(n: nat, b: nat, w: nat, k: nat)
    requires b >= 2 && k <= w
    ensures FixedDigits(n, b, w)[..k] == FixedDigits(n / Pow(b, w - k), b, k)
    decreases w
  {
    if k < w {
      FixedPrefix(n / b, b, w - 1, k);
      DivPow(n, b, w - 1 - k);
      assert FixedDigits(n, b, w)[..k] == FixedDigits(n / b, b, w - 1)[..k];
    }
  }

  /** The leading k of w fixed digits, given the value they stand for. */
  lemma FixedTop(n: nat, b: nat, w: nat, k: nat, q: nat)
    requires b >= 2 && k <= w && n / Pow(b, w - k) == q
    ensures FixedDigits(n, b, w)[..k] == FixedDigits(q, b, k)
  {
    FixedPrefix(n, b, w, k);
  }
}
