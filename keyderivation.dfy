/**
 * `mnemonic_to_private_key`: the seed is PBKDF2-HMAC-SHA512 of the mnemonic
 * text with 2048 iterations under the salt "mnemonic" followed by the
 * creation time as `%Y%m%d%H%M%S`; the master key material is
 * HMAC-SHA512(key "Bitcoin seed", seed), split into a 32-byte private key
 * and a 32-byte chain code (the "Master key generation" step of BIP-0032).
 *
 * The salt differs from the fixed salt "mnemonic" + passphrase of BIP-0039's
 * "From mnemonic to seed": it binds the seed to the second the mnemonic was
 * made. The model keeps that behaviour as it is.
 */
module KeyDerivation {
  import opened Digits
  import opened Bytes
  import opened Hashes

  /** A `datetime.datetime` value, field by field (calendar validity is not modelled). */
  datatype DateTime = DateTime(year: nat, month: nat, day: nat, hour: nat, minute: nat, second: nat, microsecond: nat)

  /** Field ranges of `datetime`, with the year kept to four digits. */
  predicate ValidDateTime(t: DateTime)
  {
    && 1000 <= t.year <= 9999
    && 1 <= t.month <= 12
    && 1 <= t.day <= 31
    && t.hour < 24
    && t.minute < 60
    && t.second < 60
    && t.microsecond < 1000000
  }

  /** Two times that agree down to the second (the microseconds may differ). */
  predicate SameSecond(t: DateTime, u: DateTime)
  {
    && t.year == u.year && t.month == u.month && t.day == u.day
    && t.hour == u.hour && t.minute == u.minute && t.second == u.second
  }

  const SaltPrefix: string := "mnemonic"
  const Pbkdf2Iterations: nat := 2048
  /** `b'Bitcoin seed'`. */
  const BitcoinSeed: seq<byte> := [0x42, 0x69, 0x74, 0x63, 0x6f, 0x69, 0x6e, 0x20, 0x73, 0x65, 0x65, 0x64]

  /** A `%d`-style field: n in exactly w decimal digits, zero-padded. */
  function Decimal(n: nat, w: nat): (r: string)
    ensures |r| == w && IsAscii(r)
    ensures forall i :: 0 <= i < w ==> '0' <= r[i] <= '9'
  {
    var ds := FixedDigits(n, 10, w);
    seq(w, i requires 0 <= i < w => ('0' as int + ds[i]) as char)
  }

  /** Distinct values below 10^w have distinct w-digit fields. */
  lemma DecimalInjective(m: nat, n: nat, w: nat)
    requires m < Pow(10, w) && n < Pow(10, w)
    requires Decimal(m, w) == Decimal(n, w)
    ensures m == n
  {
    var dm, dn := FixedDigits(m, 10, w), FixedDigits(n, 10, w);
    forall i | 0 <= i < w
      ensures dm[i] == dn[i]
    {
      assert Decimal(m, w)[i] == Decimal(n, w)[i];
    }
    assert dm == dn;
    ValueOfFixed(m, 10, w);
    ValueOfFixed(n, 10, w);
  }

  /** `t.strftime('%Y%m%d%H%M%S')`. */
  function Stamp(t: DateTime): string
  {
    Decimal(t.year, 4) + Decimal(t.month, 2) + Decimal(t.day, 2)
      + Decimal(t.hour, 2) + Decimal(t.minute, 2) + Decimal(t.second, 2)
  }

  /** `'mnemonic' + t.strftime('%Y%m%d%H%M%S')`. */
  function Salt(t: DateTime): string
  {
    SaltPrefix + Stamp(t)
  }

  /** The salt is "mnemonic" followed by exactly 14 decimal digits. */
  lemma SaltShape(t: DateTime)
    ensures |Salt(t)| == 22 && Salt(t)[..8] == "mnemonic" && IsAscii(Salt(t))
    ensures forall i :: 8 <= i < 22 ==> '0' <= Salt(t)[i] <= '9'
  {
    var s := Salt(t);
    assert s[..8] == SaltPrefix;
    forall i | 8 <= i < 22
      ensures '0' <= s[i] <= '9'
    {
    }
  }

  /** A concatenation of two strings splits back at a known length. */
  lemma SplitConcat(a: string, b: string, c: string, d: string)
    requires |b| == |d| && a + b == c + d
    ensures a == c && b == d
  {
    assert a == (a + b)[..|a|] && c == (c + d)[..|c|];
    assert b == (a + b)[|a|..] && d == (c + d)[|c|..];
  }

  /** Two valid times give the same salt exactly when they agree down to the second. */
  lemma SaltDeterminesSecond(t: DateTime, u: DateTime)
    requires ValidDateTime(t) && ValidDateTime(u)
    ensures Salt(t) == Salt(u) <==> SameSecond(t, u)
  {
    if Salt(t) == Salt(u) {
      SplitConcat(SaltPrefix, Stamp(t), SaltPrefix, Stamp(u));
      var y, y' := Decimal(t.year, 4), Decimal(u.year, 4);
      var mo, mo' := Decimal(t.month, 2), Decimal(u.month, 2);
      var d, d' := Decimal(t.day, 2), Decimal(u.day, 2);
      var h, h' := Decimal(t.hour, 2), Decimal(u.hour, 2);
      var mi, mi' := Decimal(t.minute, 2), Decimal(u.minute, 2);
      var sec, sec' := Decimal(t.second, 2), Decimal(u.second, 2);
      SplitConcat(y + mo + d + h + mi, sec, y' + mo' + d' + h' + mi', sec');
      SplitConcat(y + mo + d + h, mi, y' + mo' + d' + h', mi');
      SplitConcat(y + mo + d, h, y' + mo' + d', h');
      SplitConcat(y + mo, d, y' + mo', d');
      SplitConcat(y, mo, y', mo');
      assert Pow(10, 4) == 10000 && Pow(10, 2) == 100;
      DecimalInjective(t.year, u.year, 4);
      DecimalInjective(t.month, u.month, 2);
      DecimalInjective(t.day, u.day, 2);
      DecimalInjective(t.hour, u.hour, 2);
      DecimalInjective(t.minute, u.minute, 2);
      DecimalInjective(t.second, u.second, 2);
    }
  }

  /** The master key pair of BIP-0032. */
  datatype MasterKey = MasterKey(privateKey: seq<byte>, chainCode: seq<byte>)

  /** `master_key = hmac.new(b'Bitcoin seed', seed, sha512).digest()`, split at byte 32. */
  function MasterKeyOf(seed: Digest64, hmacSha512: HmacSha512): (k: MasterKey)
    ensures |k.privateKey| == 32 && |k.chainCode| == 32
    ensures k.privateKey + k.chainCode == hmacSha512(BitcoinSeed, seed)
  {
    var material := hmacSha512(BitcoinSeed, seed);
    MasterKey(material[..32], material[32..])
  }

  /** `seed = pbkdf2_hmac('sha512', mnemonic.encode(), salt.encode(), 2048)`. */
  function Seed(mnemonic: string, t: DateTime, pbkdf2: Pbkdf2Sha512): Digest64
  {
    pbkdf2(Utf8(mnemonic), Utf8(Salt(t)), Pbkdf2Iterations)
  }

  /** `mnemonic_to_private_key(mnemonic, timestamp)`: the seed and the master private key. */
  function MnemonicToPrivateKey(mnemonic: string, t: DateTime, pbkdf2: Pbkdf2Sha512, hmacSha512: HmacSha512)
    : (r: (Digest64, seq<byte>))
    ensures |r.1| == 32
  {
    var seed := Seed(mnemonic, t, pbkdf2);
    (seed, MasterKeyOf(seed, hmacSha512).privateKey)
  }

  /**
   * The derivation reads the time only to the second: times in the same
   * second derive the same seed and key, and times in different seconds hand
   * PBKDF2 different salts.
   */
  lemma DerivationBoundToSecond(mnemonic: string, t: DateTime, u: DateTime,
                                pbkdf2: Pbkdf2Sha512, hmacSha512: HmacSha512)
    requires ValidDateTime(t) && ValidDateTime(u)
    ensures SameSecond(t, u) ==>
      MnemonicToPrivateKey(mnemonic, t, pbkdf2, hmacSha512) == MnemonicToPrivateKey(mnemonic, u, pbkdf2, hmacSha512)
    ensures !SameSecond(t, u) ==> Utf8(Salt(t)) != Utf8(Salt(u))
  {
    SaltDeterminesSecond(t, u);
    if !SameSecond(t, u) && Utf8(Salt(t)) == Utf8(Salt(u)) {
      SaltShape(t);
      SaltShape(u);
      Utf8AsciiInjective(Salt(t), Salt(u));
    }
  }
}
