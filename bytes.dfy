/**
 * Byte strings as the generator handles them: Python `bytes` values, the
 * integer conversions `int.from_bytes(b, 'big')` and `n.to_bytes(w, 'big')`,
 * the bytewise `^` operator and `str.encode()` (UTF-8).
 */
module Bytes {
  import opened Digits

  type byte = x: nat | x < 256

  /** A value of the byte type is a base-256 digit. */
  lemma BytesAreDigits(s: seq<byte>)
    ensures AllBelow(s, 256)
  {
  }

  /** `int.from_bytes(s, 'big')`. */
  function FromBytes(s: seq<byte>): nat
  {
    Value(s, 256)
  }

  /** Narrows a digit sequence whose digits are below 256 to bytes. */
  function AsBytes(s: seq<nat>): (r: seq<byte>)
    requires AllBelow(s, 256)
    ensures r == s
  {
    seq(|s|, i requires 0 <= i < |s| => s[i] as byte)
  }

  /** `n.to_bytes(w, 'big')`, for a value that fits in `w` bytes. */
  function ToBytes(n: nat, w: nat): (r: seq<byte>)
    requires n < Pow(256, w)
    ensures |r| == w && FromBytes(r) == n
  {
    ValueOfFixed(n, 256, w);
    AsBytes(FixedDigits(n, 256, w))
  }

  /** `to_bytes` is the inverse of `from_bytes` at the string's own width. */
  lemma ToBytesFromBytes(s: seq<byte>)
    ensures FromBytes(s) < Pow(256, |s|) && ToBytes(FromBytes(s), |s|) == s
  {
    ValueBound(s, 256);
    FixedOfValue(s, 256);
  }

  /** The eight bits of a byte, most significant first. */
  function BitsOf(a: byte): (r: seq<nat>)
    ensures |r| == 8 && AllBelow(r, 2)
  {
    FixedDigits(a, 2, 8)
  }

  /** A byte holds eight bits. */
  lemma ByteWidth()
    ensures Pow(2, 8) == 256
  {
  }

  /** Bit i is set exactly when bit i of one of the two bit strings is set and the other's is not. */
  function XorBits(x: seq<nat>, y: seq<nat>): (z: seq<nat>)
    requires |x| == |y|
    ensures |z| == |x| && AllBelow(z, 2)
  {
    seq(|x|, i requires 0 <= i < |x| => if x[i] == y[i] then 0 else 1)
  }

  /** Bytewise exclusive or: bit i of the result is set when bit i of exactly one operand is. */
  function Xor(a: byte, b: byte): byte
  {
    var z := XorBits(BitsOf(a), BitsOf(b));
    ValueBound(z, 2);
    ByteWidth();
    Value(z, 2)
  }

  /** The bits of an exclusive or are the exclusive or of the bits. */
  lemma BitsOfXor(a: byte, b: byte)
    ensures BitsOf(Xor(a, b)) == XorBits(BitsOf(a), BitsOf(b))
  {
    FixedOfValue(XorBits(BitsOf(a), BitsOf(b)), 2);
  }

  /** Exclusive or with the same byte twice leaves a byte unchanged. */
  lemma XorCancel(a: byte, b: byte)
    ensures Xor(Xor(a, b), b) == a
  {
    var x, y := BitsOf(a), BitsOf(b);
    BitsOfXor(a, b);
    assert XorBits(XorBits(x, y), y) == x;
    assert Value(x, 2) == a by {
      ByteWidth();
      ValueOfFixed(a, 2, 8);
    }
  }

  /** Exclusive or does not depend on the order of its operands. */
  lemma XorComm(a: byte, b: byte)
    ensures Xor(a, b) == Xor(b, a)
  {
    assert XorBits(BitsOf(a), BitsOf(b)) == XorBits(BitsOf(b), BitsOf(a));
  }

  /** With one operand fixed, exclusive or is injective in the other. */
  lemma XorInjective(a: byte, b: byte, c: byte)
    requires Xor(a, b) == Xor(a, c)
    ensures b == c
  {
    XorComm(a, b);
    XorComm(a, c);
    XorCancel(b, a);
    XorCancel(c, a);
  }

  /** The UTF-8 encoding of one Unicode scalar value. */
  function EncodeChar(c: char): (r: seq<byte>)
    ensures 1 <= |r| <= 4
    ensures c as int < 0x80 ==> r == [c as int]
    ensures c as int >= 0x80 ==> r[0] >= 0xC0
  {
    var n := c as int;
    if n < 0x80 then [n]
    else if n < 0x800 then [0xC0 + n / 0x40, 0x80 + n % 0x40]
    else if n < 0x1_0000 then [0xE0 + n / 0x1000, 0x80 + (n / 0x40) % 0x40, 0x80 + n % 0x40]
    else [0xF0 + n / 0x4_0000, 0x80 + (n / 0x1000) % 0x40, 0x80 + (n / 0x40) % 0x40, 0x80 + n % 0x40]
  }

  /** `s.encode()`: UTF-8, which is Python's default text encoding. */
  function Utf8(s: string): (r: seq<byte>)
    ensures |r| >= |s|
  {
    if s == [] then [] else EncodeChar(s[0]) + Utf8(s[1..])
  }

  predicate IsAscii(s: string)
  {
    forall i :: 0 <= i < |s| ==> s[i] as int < 0x80
  }

  /** An ASCII string encodes to its character codes, one byte each. */
  lemma {:induction false} Utf8Ascii(s: string)
    requires IsAscii(s)
    ensures |Utf8(s)| == |s|
    ensures forall i :: 0 <= i < |s| ==> Utf8(s)[i] == s[i] as int
  {
    if s != [] {
      Utf8Ascii(s[1..]);
    }
  }

  /** Distinct ASCII strings have distinct encodings. */
  lemma Utf8AsciiInjective(s: string, t: string)
    requires IsAscii(s) && IsAscii(t) && Utf8(s) == Utf8(t)
    ensures s == t
  {
    Utf8Ascii(s);
    Utf8Ascii(t);
    assert |s| == |t|;
    forall i | 0 <= i < |s|
      ensures s[i] == t[i]
    {
      assert s[i] as int == Utf8(s)[i] == t[i] as int;
    }
  }
}
