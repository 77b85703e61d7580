/**
 * The entropy of `generate_new_key`: six 16-byte lanes combined position by
 * position with exclusive or, then hashed with SHA-256 and cut to 16 bytes.
 * Four lanes are 8-byte clock and random readings written twice, one is the
 * 16-byte `secrets.token_bytes(16)` draw and one is 8 bytes of the SHA-256 of
 * 10000 random decimal digits, written twice.
 *
 * The clocks and random sources are not modelled: their readings are the
 * fields of `Readings`.
 */
module EntropyMixing {
  import opened Digits
  import opened Bytes
  import opened Hashes

  const LaneWidth: nat := 8
  const EntropyBytes: nat := 16
  const RandomDigitCount: nat := 10000

  /** The nondeterministic inputs `generate_new_key` reads, as values. */
  datatype Readings = Readings(
    timeMillis: nat,        // int(time.time() * 1000)
    perfCounterNanos: nat,  // int(time.perf_counter() * 10**9)
    processTimeNanos: nat,  // int(time.process_time() * 10**9)
    systemRandom: nat,      // random.SystemRandom().getrandbits(64)
    tokenBytes: seq<byte>,  // secrets.token_bytes(16)
    randomDigits: seq<nat>  // secrets.randbelow(10), drawn 10000 times
  )

  /**
   * What the sources guarantee: every reading fits the 8 bytes `to_bytes(8, 'big')`
   * writes it into, `token_bytes(16)` gives 16 bytes and `randbelow(10)` a decimal digit.
   */
  predicate ValidReadings(r: Readings)
  {
    && r.timeMillis < Pow(256, LaneWidth)
    && r.perfCounterNanos < Pow(256, LaneWidth)
    && r.processTimeNanos < Pow(256, LaneWidth)
    && r.systemRandom < Pow(256, LaneWidth)
    && |r.tokenBytes| == EntropyBytes
    && |r.randomDigits| == RandomDigitCount
    && AllBelow(r.randomDigits, 10)
  }

  /** `''.join(str(d) for d in digits)`. */
  function DigitText(digits: seq<nat>): (r: string)
    requires AllBelow(digits, 10)
    ensures |r| == |digits| && IsAscii(r)
    ensures forall i :: 0 <= i < |r| ==> '0' <= r[i] <= '9'
  {
    seq(|digits|, i requires 0 <= i < |digits| => ('0' as int + digits[i]) as char)
  }

  /** `sha256(extra_random.encode()).digest()[:8]`. */
  function ExtraEntropy(r: Readings, sha256: Sha256): (e: seq<byte>)
    requires ValidReadings(r)
    ensures |e| == LaneWidth
  {
    sha256(Utf8(DigitText(r.randomDigits)))[..LaneWidth]
  }

  /** `x + x`: an 8-byte reading stretched to a 16-byte lane. */
  function Doubled(x: seq<byte>): seq<byte>
  {
    x + x
  }

  function Min(a: nat, b: nat): nat
  {
    if a <= b then a else b
  }

  /** `bytes([a ^ b ^ c ^ d ^ e ^ f for a, b, c, d, e, f in zip(...)])`: zip stops at the shortest lane. */
  function XorZip(a: seq<byte>, b: seq<byte>, c: seq<byte>, d: seq<byte>, e: seq<byte>, f: seq<byte>): seq<byte>
  {
    var n := Min(Min(Min(|a|, |b|), Min(|c|, |d|)), Min(|e|, |f|));
    seq(n, i requires 0 <= i < n => Xor(Xor(Xor(Xor(Xor(a[i], b[i]), c[i]), d[i]), e[i]), f[i]))
  }

  /** `mixed_entropy`. */
  function MixedEntropy(r: Readings, sha256: Sha256): seq<byte>
    requires ValidReadings(r)
  {
    XorZip(
      Doubled(ToBytes(r.timeMillis, LaneWidth)),
      Doubled(ToBytes(r.perfCounterNanos, LaneWidth)),
      Doubled(ToBytes(r.processTimeNanos, LaneWidth)),
      Doubled(ToBytes(r.systemRandom, LaneWidth)),
      r.tokenBytes,
      Doubled(ExtraEntropy(r, sha256)))
  }

  /** `entropy = sha256(mixed_entropy).digest()[:16]`. */
  function Entropy(r: Readings, sha256: Sha256): (e: seq<byte>)
    requires ValidReadings(r)
    ensures |e| == EntropyBytes
  {
    sha256(MixedEntropy(r, sha256))[..EntropyBytes]
  }

  /** Byte i of the mixed entropy: byte i of the token draw mixed with byte i mod 8 of every other lane. */
  function MixedByte(r: Readings, sha256: Sha256, i: nat): byte
    requires ValidReadings(r) && i < EntropyBytes
  {
    var k := i % LaneWidth;
    Xor(Xor(Xor(Xor(Xor(
      ToBytes(r.timeMillis, LaneWidth)[k],
      ToBytes(r.perfCounterNanos, LaneWidth)[k]),
      ToBytes(r.processTimeNanos, LaneWidth)[k]),
      ToBytes(r.systemRandom, LaneWidth)[k]),
      r.tokenBytes[i]),
      ExtraEntropy(r, sha256)[k])
  }

  /** A doubled 8-byte lane repeats its bytes with period 8. */
  lemma DoubledAt(x: seq<byte>, i: nat)
    requires |x| == LaneWidth && i < EntropyBytes
    ensures |Doubled(x)| == EntropyBytes && Doubled(x)[i] == x[i % LaneWidth]
  {
  }

  /**
   * The mixed entropy has exactly 16 bytes, and byte i is the exclusive or of
   * byte i of the token draw with byte i mod 8 of each 8-byte reading and of
   * the extra lane.
   */
  lemma MixedEntropyBytes(r: Readings, sha256: Sha256)
    requires ValidReadings(r)
    ensures |MixedEntropy(r, sha256)| == EntropyBytes
    ensures forall i :: 0 <= i < EntropyBytes ==> MixedEntropy(r, sha256)[i] == MixedByte(r, sha256, i)
  {
    var t, pc, pt, sr := ToBytes(r.timeMillis, LaneWidth), ToBytes(r.perfCounterNanos, LaneWidth),
                         ToBytes(r.processTimeNanos, LaneWidth), ToBytes(r.systemRandom, LaneWidth);
    var x := ExtraEntropy(r, sha256);
    var m := MixedEntropy(r, sha256);
    assert m == XorZip(Doubled(t), Doubled(pc), Doubled(pt), Doubled(sr), r.tokenBytes, Doubled(x));
    forall i | 0 <= i < EntropyBytes
      ensures m[i] == MixedByte(r, sha256, i)
    {
      DoubledAt(t, i);
      DoubledAt(pc, i);
      DoubledAt(pt, i);
      DoubledAt(sr, i);
      DoubledAt(x, i);
    }
  }

  /**
   * With every other reading fixed, the mixed entropy determines the token
   * draw: mixing is injective (so a bijection on 16 bytes) in that lane.
   */
  lemma MixingKeepsTokenDraw(r: Readings, token: seq<byte>, sha256: Sha256)
    requires ValidReadings(r) && |token| == EntropyBytes
    requires MixedEntropy(r, sha256) == MixedEntropy(r.(tokenBytes := token), sha256)
    ensures r.tokenBytes == token
  {
    var r' := r.(tokenBytes := token);
    MixedEntropyBytes(r, sha256);
    MixedEntropyBytes(r', sha256);
    forall i | 0 <= i < EntropyBytes
      ensures r.tokenBytes[i] == token[i]
    {
      var k := i % LaneWidth;
      var p := Xor(Xor(Xor(
        ToBytes(r.timeMillis, LaneWidth)[k],
        ToBytes(r.perfCounterNanos, LaneWidth)[k]),
        ToBytes(r.processTimeNanos, LaneWidth)[k]),
        ToBytes(r.systemRandom, LaneWidth)[k]);
      var f := ExtraEntropy(r, sha256)[k];
      assert ExtraEntropy(r', sha256) == ExtraEntropy(r, sha256);
      assert MixedByte(r, sha256, i) == MixedByte(r', sha256, i);
      XorCancel(Xor(p, r.tokenBytes[i]), f);
      XorCancel(Xor(p, token[i]), f);
      XorInjective(p, r.tokenBytes[i], token[i]);
    }
  }
}
