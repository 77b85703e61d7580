/**
 * Base58 as Bitcoin uses it (`ALPHABET` and `b58encode` in generator.py):
 * leading zero bytes become leading '1' characters and the rest of the byte
 * string, read as one big-endian integer, is written in base 58 with the
 * alphabet below. `Decode` is the matching reader, used to state the round trip.
 */
module Base58 {
  import opened Wrappers
  import opened Digits
  import opened Bytes

  /**
   * The 58 symbols, in digit order: digits and letters without the
   * look-alikes `0`, `O`, `I` and `l`. The literal of generator.py is written
   * here as its six runs of consecutive characters, split where a look-alike
   * was left out.
   */
  const ALPHABET: string := "123456789" + "ABCDEFGH" + "JKLMN" + "PQRSTUVWXYZ" + "abcdefghijk" + "mnopqrstuvwxyz"

  /** Digit value of an alphabet symbol, or None for any other character. */
  function DigitOf(c: char): (r: Option<nat>)
    ensures r.Some? ==> r.value < 58
  {
    if '1' <= c <= '9' then Some(c as nat - '1' as nat)
    else if 'A' <= c <= 'H' then Some(c as nat - 'A' as nat + 9)
    else if 'J' <= c <= 'N' then Some(c as nat - 'J' as nat + 17)
    else if 'P' <= c <= 'Z' then Some(c as nat - 'P' as nat + 22)
    else if 'a' <= c <= 'k' then Some(c as nat - 'a' as nat + 33)
    else if 'm' <= c <= 'z' then Some(c as nat - 'm' as nat + 44)
    else None
  }

  /** `n` consecutive ASCII characters from `first` on. */
  function Run(first: char, n: nat): string
    requires first as int + n <= 0x80
  {
    seq(n, i requires 0 <= i < n => (first as int + i) as char)
  }

  /** Each of the six runs of the alphabet is a run of consecutive characters. */
  lemma AlphabetRuns()
    ensures ALPHABET == Run('1', 9) + Run('A', 8) + Run('J', 5) + Run('P', 11) + Run('a', 11) + Run('m', 14)
  {
    assert "123456789" == Run('1', 9);
    assert "ABCDEFGH" == Run('A', 8);
    assert "JKLMN" == Run('J', 5);
    assert "PQRSTUVWXYZ" == Run('P', 11);
    assert "abcdefghijk" == Run('a', 11);
    assert "mnopqrstuvwxyz" == Run('m', 14);
  }

  /** Every alphabet symbol reads back as its own position: the 58 symbols are distinct. */
  lemma DigitOfAlphabet(d: nat)
    requires d < 58
    ensures DigitOf(ALPHABET[d]) == Some(d)
  {
    AlphabetRuns();
    var c := ALPHABET[d];
    if d < 9 {
      assert c == Run('1', 9)[d];
    } else if d < 17 {
      assert c == Run('A', 8)[d - 9];
    } else if d < 22 {
      assert c == Run('J', 5)[d - 17];
    } else if d < 33 {
      assert c == Run('P', 11)[d - 22];
    } else if d < 44 {
      assert c == Run('a', 11)[d - 33];
    } else {
      assert c == Run('m', 14)[d - 44];
    }
  }

  /** The alphabet has 58 symbols and none of the look-alikes `0`, `O`, `I`, `l`. */
  lemma AlphabetShape()
    ensures |ALPHABET| == 58
    ensures forall c :: c in ALPHABET ==> DigitOf(c).Some?
    ensures '0' !in ALPHABET && 'O' !in ALPHABET && 'I' !in ALPHABET && 'l' !in ALPHABET
  {
    forall c | c in ALPHABET
      ensures DigitOf(c).Some?
    {
      var d :| 0 <= d < 58 && ALPHABET[d] == c;
      DigitOfAlphabet(d);
    }
  }

  /** Number of leading zero bytes (what `v.lstrip(b'\0')` removes). */
  function LeadingZeros(v: seq<byte>): (r: nat)
    ensures r <= |v|
    ensures forall i :: 0 <= i < r ==> v[i] == 0
    ensures r < |v| ==> v[r] != 0
  {
    if v == [] || v[0] != 0 then 0 else 1 + LeadingZeros(v[1..])
  }

  /** Number of leading '1' characters. */
  function LeadingOnes(s: string): (r: nat)
    ensures r <= |s|
    ensures forall i :: 0 <= i < r ==> s[i] == '1'
    ensures r < |s| ==> s[r] != '1'
  {
    if s == [] || s[0] != '1' then 0 else 1 + LeadingOnes(s[1..])
  }

  /** `'1' * n`. */
  function Ones(n: nat): string
  {
    seq(n, _ => '1')
  }

  /** Base58 digits written with the alphabet. */
  function Symbols(ds: seq<nat>): string
    requires AllBelow(ds, 58)
  {
    seq(|ds|, i requires 0 <= i < |ds| => ALPHABET[ds[i]])
  }

  lemma SymbolsCons(d: nat, ds: seq<nat>)
    requires d < 58 && AllBelow(ds, 58)
    ensures AllBelow([d] + ds, 58) && Symbols([d] + ds) == [ALPHABET[d]] + Symbols(ds)
  {
  }

  /** One step of the division loop: the remainder becomes the next digit to the left. */
  lemma DigitStep(total: nat, acc: nat, digits: seq<nat>)
    requires acc > 0 && ToDigits(total, 58) == ToDigits(acc, 58) + digits
    ensures ToDigits(total, 58) == ToDigits(acc / 58, 58) + ([acc % 58] + digits)
  {
    assert ToDigits(acc, 58) == ToDigits(acc / 58, 58) + [acc % 58];
  }

  /** What `b58encode(v)` returns: a '1' per leading zero byte, then the base-58 numeral of the remaining bytes. */
  function Encode(v: seq<byte>): string
  {
    var z := LeadingZeros(v);
    Ones(z) + Symbols(ToDigits(FromBytes(v[z..]), 58))
  }

  /** Digit values of a string of alphabet symbols; None if any character is outside the alphabet. */
  function DigitsOf(s: string): (r: Option<seq<nat>>)
    ensures r.Some? ==> |r.value| == |s| && AllBelow(r.value, 58)
  {
    if s == [] then Some([])
    else match (DigitOf(s[0]), DigitsOf(s[1..]))
      case (Some(d), Some(ds)) => Some([d] + ds)
      case _ => None
  }

  /** Base58 decoding: a zero byte per leading '1', then the bytes of the value of the remaining digits. */
  function Decode(s: string): Option<seq<byte>>
  {
    var z := LeadingOnes(s);
    match DigitsOf(s[z..])
    case None => None
    case Some(ds) =>
      var bs := ToDigits(Value(ds, 58), 256);
      Some(AsBytes(Zeros(z) + bs))
  }

  /** Every character of an encoding is an alphabet symbol, so none is `0`, `O`, `I` or `l`. */
  lemma EncodeAlphabet(v: seq<byte>)
    ensures forall i :: 0 <= i < |Encode(v)| ==> Encode(v)[i] in ALPHABET
    ensures forall i :: 0 <= i < |Encode(v)| ==> Encode(v)[i] !in "0OIl"
  {
    AlphabetShape();
    assert ALPHABET[0] == '1';
    var z := LeadingZeros(v);
    var ds := ToDigits(FromBytes(v[z..]), 58);
    forall i | 0 <= i < |Encode(v)|
      ensures Encode(v)[i] in ALPHABET
    {
      if i >= z {
        assert Encode(v)[i] == ALPHABET[ds[i - z]];
      }
    }
  }

  /** The digit part of an encoding is empty or starts with a nonzero digit, so it never starts with '1'. */
  lemma DigitPartStart(v: seq<byte>)
    ensures var z := LeadingZeros(v);
            var ds := ToDigits(FromBytes(v[z..]), 58);
            (ds == [] <==> z == |v|) && (ds != [] ==> ds[0] != 0 && ALPHABET[ds[0]] != '1')
  {
    var z := LeadingZeros(v);
    var w := v[z..];
    if z < |v| {
      assert FromBytes(w) > 0 by {
        assert w[0] == v[z];
        ValuePositive(w, 256);
      }
      var ds := ToDigits(FromBytes(w), 58);
      assert ALPHABET[ds[0]] != '1' by {
        DigitOfAlphabet(ds[0]);
        assert DigitOf('1') == Some(0);
      }
    } else {
      assert w == [];
    }
  }

  /** The number of leading '1' characters of an encoding is the number of leading zero bytes. */
  lemma LeadingOnesOfEncode(v: seq<byte>)
    ensures LeadingOnes(Encode(v)) == LeadingZeros(v)
  {
    var z := LeadingZeros(v);
    var s := Encode(v);
    DigitPartStart(v);
    assert forall i :: 0 <= i < z ==> s[i] == '1';
    assert z < |s| ==> s[z] != '1';
  }

  /** Decoding the symbols of a digit string gives the digits back. */
  lemma {:induction false} DigitsOfSymbols(ds: seq<nat>)
    requires AllBelow(ds, 58)
    ensures DigitsOf(Symbols(ds)) == Some(ds)
  {
    if ds != [] {
      DigitOfAlphabet(ds[0]);
      assert Symbols(ds)[1..] == Symbols(ds[1..]);
      DigitsOfSymbols(ds[1..]);
      assert ds == [ds[0]] + ds[1..];
    }
  }

  /** The non-padding part of an encoding, read as base-58 digits, is the big-endian value of the input. */
  lemma EncodeValue(v: seq<byte>)
    ensures var z := LeadingZeros(v);
            DigitsOf(Encode(v)[z..]).Some? &&
            Value(DigitsOf(Encode(v)[z..]).value, 58) == FromBytes(v)
  {
    var z := LeadingZeros(v);
    var ds := ToDigits(FromBytes(v[z..]), 58);
    assert Encode(v)[z..] == Symbols(ds);
    DigitsOfSymbols(ds);
    ValueOfToDigits(FromBytes(v[z..]), 58);
    LeadingZerosValue(v, z);
  }

  /** Leading zero bytes do not change the big-endian value. */
  lemma {:induction false} LeadingZerosValue(v: seq<byte>, z: nat)
    requires z <= |v| && forall i :: 0 <= i < z ==> v[i] == 0
    ensures FromBytes(v) == FromBytes(v[z..])
    decreases z
  {
    if z > 0 {
      ValueCons(0, v[1..], 256);
      assert v == [0] + v[1..];
      LeadingZerosValue(v[1..], z - 1);
      assert v[1..][z - 1..] == v[z..];
    }
  }

  /** Decoding an encoding gives the original bytes back, leading zero bytes included. */
  lemma RoundTrip(v: seq<byte>)
    ensures Decode(Encode(v)) == Some(v)
  {
    var z := LeadingZeros(v);
    var w := v[z..];
    var ds := ToDigits(FromBytes(w), 58);
    var s := Encode(v);
    assert LeadingOnes(s) == z by {
      LeadingOnesOfEncode(v);
    }
    assert DigitsOf(s[z..]) == Some(ds) by {
      assert s[z..] == Symbols(ds);
      DigitsOfSymbols(ds);
    }
    assert ToDigits(Value(ds, 58), 256) == w by {
      DigitPartRoundTrip(w);
    }
    assert Decode(s) == Some(AsBytes(Zeros(z) + w));
    assert Zeros(z) + w == v by {
      ZerosThenRest(v);
    }
  }

  /** A byte string is its leading zero bytes followed by the rest. */
  lemma ZerosThenRest(v: seq<byte>)
    ensures Zeros(LeadingZeros(v)) + v[LeadingZeros(v)..] == v
  {
    var z := LeadingZeros(v);
    assert v[..z] == Zeros(z);
    assert v == v[..z] + v[z..];
  }

  /** Bytes without a leading zero survive the trip to base 58 and back. */
  lemma DigitPartRoundTrip(w: seq<byte>)
    requires w == [] || w[0] != 0
    ensures ToDigits(Value(ToDigits(FromBytes(w), 58), 58), 256) == w
  {
    ValueOfToDigits(FromBytes(w), 58);
    BytesAreDigits(w);
    ToDigitsOfValue(w, 256);
  }

  /**
   * `b58encode(v)`: strip the leading zero bytes, accumulate the rest into
   * one integer from the last byte up, then peel off base-58 digits,
   * prepending each symbol to the result.
   */
  method B58Encode(v: seq<byte>) returns (s: string)
    ensures s == Encode(v)
    ensures Decode(s) == Some(v)
    ensures LeadingOnes(s) == LeadingZeros(v)
  {
    var nPad := |v|;
    var w := v[LeadingZeros(v)..];
    nPad := nPad - |w|;

    var p: nat, acc: nat := 1, 0;
    var i := |w|;
    while i > 0
      invariant 0 <= i <= |w|
      invariant acc == FromBytes(w[i..])
      invariant p == Pow(256, |w| - i)
    {
      i := i - 1;
      assert FromBytes(w[i..]) == acc + p * w[i] by {
        assert w[i..] == [w[i]] + w[i + 1..];
        ValueCons(w[i], w[i + 1..], 256);
        MulComm(w[i], p);
      }
      acc := acc + p * w[i];
      assert p * 256 == Pow(256, |w| - i) by {
        MulComm(p, 256);
      }
      p := p * 256;
    }
    assert w[0..] == w;

    ghost var total := acc;
    ghost var digits: seq<nat> := [];
    var result := "";
    while acc > 0
      invariant AllBelow(digits, 58)
      invariant ToDigits(total, 58) == ToDigits(acc, 58) + digits
      invariant result == Symbols(digits)
      decreases acc
    {
      var idx: nat := acc % 58;
      DigitStep(total, acc, digits);
      acc := acc / 58;
      result := [ALPHABET[idx]] + result;
      SymbolsCons(idx, digits);
      digits := [idx] + digits;
    }

    s := Ones(nPad) + result;
    assert s == Encode(v) by {
      assert digits == ToDigits(FromBytes(w), 58);
    }
    RoundTrip(v);
    LeadingOnesOfEncode(v);
  }
}
