/**
 * The entropy-to-mnemonic encoding at the end of `generate_new_key`
 * (the "Generating the mnemonic from entropy" procedure of BIP-0039):
 * the entropy's 128 bits as a zero-filled binary string, followed by the top
 * 4 bits of SHA-256(entropy), cut into 11-bit groups that index a
 * 2048-word list, the words joined with single spaces.
 *
 * Bit strings, which the source handles as text of '0' and '1', are
 * sequences of the digits 0 and 1 here.
 */
module Bip39 {
  import opened Digits
  import opened Bytes
  import opened Hashes

  const EntropyBitCount: nat := 128
  const ChecksumBitCount: nat := 4
  const WordBits: nat := 11
  const WordCount: nat := 12
  const WordListSize: nat := 2048

  /** 11 bits index exactly 2048 words; 4 bits hold a nibble. */
  lemma BitWidths()
    ensures Pow(2, WordBits) == WordListSize && Pow(2, ChecksumBitCount) == 16
  {
  }

  // ---------------------------------------------------------------------------
  // Binary text: `bin(n)[2:]`, `zfill` and `int(bits, 2)`

  /** `bin(n)[2:]`: the shortest binary numeral of n ("0" for zero). */
  function Binary(n: nat): (r: seq<nat>)
    ensures 1 <= |r| && AllBelow(r, 2)
    decreases n
  {
    if n < 2 then [n] else Binary(n / 2) + [n % 2]
  }

  /** `s.zfill(w)`: left-pad with zeros to width w; a longer string is left as it is. */
  function ZFill(s: seq<nat>, w: nat): (r: seq<nat>)
    ensures |r| == if |s| >= w then |s| else w
  {
    if |s| >= w then s else Zeros(w - |s|) + s
  }

  /** `bin(n)[2:].zfill(w)` is exactly the w-bit big-endian expansion of n when n fits in w bits. */
  lemma {:induction false} BinaryZFill(n: nat, w: nat)
    requires 1 <= w && n < Pow(2, w)
    ensures ZFill(Binary(n), w) == FixedDigits(n, 2, w)
    decreases w
  {
    if n < 2 {
      FixedZero(w - 1);
      assert FixedDigits(n, 2, w) == FixedDigits(0, 2, w - 1) + [n];
    } else {
      assert w >= 2;
      assert n / 2 < Pow(2, w - 1);
      BinaryZFill(n / 2, w - 1);
      var b := Binary(n / 2);
      assert |b| <= w - 1;
      assert Zeros(w - 1 - |b|) + b + [n % 2] == Zeros(w - |Binary(n)|) + Binary(n);
    }
  }

  lemma {:induction false} FixedZero(w: nat)
    ensures FixedDigits(0, 2, w) == Zeros(w)
  {
    if w > 0 {
      FixedZero(w - 1);
      assert Zeros(w - 1) + [0] == Zeros(w);
    }
  }

  // ---------------------------------------------------------------------------
  // Entropy bits and checksum bits

  /** `bin(int.from_bytes(entropy, 'big'))[2:].zfill(128)`. */
  function EntropyBits(entropy: seq<byte>): seq<nat>
  {
    ZFill(Binary(FromBytes(entropy)), EntropyBitCount)
  }

  /**
   * `bin(int(sha256(entropy).hexdigest(), 16))[2:].zfill(256)[:4]`; reading the
   * hexadecimal digest back as an integer is the big-endian value of the digest.
   */
  function ChecksumBits(digest: Digest32): (r: seq<nat>)
    ensures |r| == ChecksumBitCount
  {
    ZFill(Binary(FromBytes(digest)), 256)[..ChecksumBitCount]
  }

  /** `bin(int.from_bytes(s, 'big'))[2:].zfill(8 * len(s))` is the 8|s|-bit expansion of the bytes' value. */
  lemma BytesBinary(s: seq<byte>)
    requires |s| >= 1
    ensures ZFill(Binary(FromBytes(s)), 8 * |s|) == FixedDigits(FromBytes(s), 2, 8 * |s|)
  {
    ValueBound(s, 256);
    BytePow(|s|);
    BinaryZFill(FromBytes(s), 8 * |s|);
  }

  /** Dropping all but the top four of the 8|s| bits leaves the high nibble of the first byte. */
  lemma TopNibbleValue(s: seq<byte>)
    requires |s| >= 1
    ensures FromBytes(s) / Pow(2, 8 * |s| - 4) == s[0] / 16
  {
    var rest := s[1..];
    var b := Pow(256, |rest|);
    assert FromBytes(s) == s[0] * b + FromBytes(rest) by {
      assert s == [s[0]] + rest;
      ValueCons(s[0], rest, 256);
    }
    assert FromBytes(rest) < b by {
      ValueBound(rest, 256);
    }
    assert Pow(2, 8 * |s| - 4) == 16 * b by {
      BytePow(|rest|);
      PowAdd(2, 4, 8 * |rest|);
      assert Pow(2, 4) == 16;
    }
    HighNibble(s[0], FromBytes(rest), b);
  }

  /** For 16 bytes of entropy the entropy bits are its 128-bit big-endian expansion. */
  lemma EntropyBitsExact(entropy: seq<byte>)
    requires |entropy| == 16
    ensures EntropyBits(entropy) == FixedDigits(FromBytes(entropy), 2, EntropyBitCount)
  {
    BytesBinary(entropy);
  }

  /** The checksum is the high nibble of the digest's first byte, as four bits. */
  lemma ChecksumIsHighNibble(digest: Digest32)
    ensures ChecksumBits(digest) == FixedDigits(digest[0] / 16, 2, ChecksumBitCount)
  {
    BytesBinary(digest);
    TopNibbleValue(digest);
    FixedTop(FromBytes(digest), 2, 8 * |digest|, ChecksumBitCount, digest[0] / 16);
  }

  /** Dividing x * b + r (with r < b) by 16 * b keeps the high nibble of x. */
  lemma HighNibble(x: nat, r: nat, b: nat)
    requires r < b
    ensures (x * b + r) / (16 * b) == x / 16
  {
    var q, m := x / 16, x % 16;
    assert x * b + r == q * (16 * b) + (m * b + r) by {
      assert x * b == (q * 16 + m) * b;
    }
    assert m * b + r < 16 * b by {
      MulLeftMono(m, 15, b);
    }
    DivModUnique(x * b + r, 16 * b, q, m * b + r);
  }

  // ---------------------------------------------------------------------------
  // 11-bit groups

  /** `[int(bits[i:i+11], 2) for i in range(0, len(bits), 11)]`. */
  function Groups(bits: seq<nat>): (r: seq<nat>)
    ensures |r| == (|bits| + WordBits - 1) / WordBits
    decreases |bits|
  {
    if bits == [] then []
    else if |bits| <= WordBits then [Value(bits, 2)]
    else [Value(bits[..WordBits], 2)] + Groups(bits[WordBits..])
  }

  /** Every group of at most 11 bits indexes the 2048-word list. */
  lemma {:induction false} GroupsBound(bits: seq<nat>)
    requires AllBelow(bits, 2)
    ensures AllBelow(Groups(bits), WordListSize)
    decreases |bits|
  {
    BitWidths();
    if bits != [] {
      var g := if |bits| <= WordBits then bits else bits[..WordBits];
      ValueBound(g, 2);
      PowMono(2, |g|, WordBits);
      if |bits| > WordBits {
        GroupsBound(bits[WordBits..]);
      }
    }
  }

  /** Indices back to bits: each index as an 11-bit big-endian group. */
  function IndicesToBits(indices: seq<nat>): (r: seq<nat>)
    ensures |r| == WordBits * |indices| && AllBelow(r, 2)
  {
    if indices == [] then [] else FixedDigits(indices[0], 2, WordBits) + IndicesToBits(indices[1..])
  }

  /** Cutting a whole number of 11-bit groups and writing them back gives the bits back. */
  lemma {:induction false} GroupsRoundTrip(bits: seq<nat>)
    requires AllBelow(bits, 2) && |bits| % WordBits == 0
    ensures IndicesToBits(Groups(bits)) == bits
    decreases |bits|
  {
    if bits != [] {
      var g := bits[..WordBits];
      FixedOfValue(g, 2);
      GroupsRoundTrip(bits[WordBits..]);
      if |bits| == WordBits {
        assert g == bits;
      }
      assert Groups(bits) == [Value(g, 2)] + Groups(bits[WordBits..]);
      assert bits == g + bits[WordBits..];
    }
  }

  /** Writing indices below 2048 as 11-bit groups and cutting them again gives the indices back. */
  lemma {:induction false} IndicesRoundTrip(indices: seq<nat>)
    requires AllBelow(indices, WordListSize)
    ensures Groups(IndicesToBits(indices)) == indices
  {
    if indices != [] {
      var first, rest := indices[0], indices[1..];
      var head := FixedDigits(first, 2, WordBits);
      var bits := IndicesToBits(indices);
      assert bits == head + IndicesToBits(rest);
      assert Value(head, 2) == first by {
        BitWidths();
        ValueOfFixed(first, 2, WordBits);
      }
      IndicesRoundTrip(rest);
      if rest == [] {
        assert bits == head;
      } else {
        assert bits[..WordBits] == head && bits[WordBits..] == IndicesToBits(rest);
      }
      assert indices == [first] + rest;
    }
  }

  // ---------------------------------------------------------------------------
  // Entropy to word indices and back

  /** `indexes` in `generate_new_key`: the 11-bit groups of entropy bits followed by checksum bits. */
  function MnemonicIndices(entropy: seq<byte>, sha256: Sha256): seq<nat>
  {
    Groups(EntropyBits(entropy) + ChecksumBits(sha256(entropy)))
  }

  /** 128 bits of entropy and 4 checksum bits make exactly 12 indices, each below 2048. */
  lemma MnemonicShape(entropy: seq<byte>, sha256: Sha256)
    requires |entropy| == 16
    ensures |MnemonicIndices(entropy, sha256)| == WordCount
    ensures AllBelow(MnemonicIndices(entropy, sha256), WordListSize)
  {
    EntropyBitsExact(entropy);
    var bits := EntropyBits(entropy) + ChecksumBits(sha256(entropy));
    ChecksumIsHighNibble(sha256(entropy));
    assert |bits| == 132;
    GroupsBound(bits);
  }

  /** The indices, written back as 11-bit groups, are the 128 entropy bits followed by the 4 checksum bits. */
  lemma ChecksumRoundTrip(entropy: seq<byte>, sha256: Sha256)
    requires |entropy| == 16
    ensures IndicesToBits(MnemonicIndices(entropy, sha256))
         == FixedDigits(FromBytes(entropy), 2, EntropyBitCount) + FixedDigits(sha256(entropy)[0] / 16, 2, ChecksumBitCount)
  {
    EntropyBitsExact(entropy);
    ChecksumIsHighNibble(sha256(entropy));
    var bits := EntropyBits(entropy) + ChecksumBits(sha256(entropy));
    assert |bits| == 132;
    GroupsRoundTrip(bits);
  }

  /** The entropy carried by twelve indices: the first 128 of their bits, as 16 bytes. */
  function EntropyOfIndices(indices: seq<nat>): (r: seq<byte>)
    requires |indices| == WordCount
    ensures |r| == 16
  {
    var bits := IndicesToBits(indices)[..EntropyBitCount];
    ValueBound(bits, 2);
    BytePow(16);
    ToBytes(Value(bits, 2), 16)
  }

  /** The checksum carried by twelve indices: the value of their last 4 bits. */
  function ChecksumOfIndices(indices: seq<nat>): (r: nat)
    requires |indices| == WordCount
    ensures r < 16
  {
    var bits := IndicesToBits(indices)[EntropyBitCount..];
    ValueBound(bits, 2);
    BitWidths();
    Value(bits, 2)
  }

  /** The twelve indices give back the entropy they encode and the high nibble of its hash. */
  lemma MnemonicDecodes(entropy: seq<byte>, sha256: Sha256)
    requires |entropy| == 16
    ensures |MnemonicIndices(entropy, sha256)| == WordCount
    ensures EntropyOfIndices(MnemonicIndices(entropy, sha256)) == entropy
    ensures ChecksumOfIndices(MnemonicIndices(entropy, sha256)) == sha256(entropy)[0] / 16
  {
    MnemonicShape(entropy, sha256);
    ChecksumRoundTrip(entropy, sha256);
    var indices := MnemonicIndices(entropy, sha256);
    var bits := IndicesToBits(indices);
    var e := FromBytes(entropy);
    assert EntropyOfIndices(indices) == entropy by {
      assert bits[..EntropyBitCount] == FixedDigits(e, 2, EntropyBitCount);
      assert e < Pow(2, EntropyBitCount) by {
        ValueBound(entropy, 256);
        BytePow(16);
      }
      ValueOfFixed(e, 2, EntropyBitCount);
      ToBytesFromBytes(entropy);
    }
    assert ChecksumOfIndices(indices) == sha256(entropy)[0] / 16 by {
      var nibble := sha256(entropy)[0] / 16;
      assert bits[EntropyBitCount..] == FixedDigits(nibble, 2, ChecksumBitCount);
      BitWidths();
      ValueOfFixed(nibble, 2, ChecksumBitCount);
    }
  }

  // ---------------------------------------------------------------------------
  // Words and the phrase

  /** `wordlist[index]` for each index. */
  function Words(indices: seq<nat>, wordlist: seq<string>): seq<string>
    requires AllBelow(indices, |wordlist|)
  {
    seq(|indices|, i requires 0 <= i < |indices| => wordlist[indices[i]])
  }

  /** `' '.join(words)`. */
  function Join(words: seq<string>): string
  {
    if words == [] then ""
    else if |words| == 1 then words[0]
    else words[0] + " " + Join(words[1..])
  }

  /** Index of the first space in s. */
  function FirstSpace(s: string): (r: nat)
    requires ' ' in s
    ensures r < |s| && s[r] == ' '
    ensures forall j :: 0 <= j < r ==> s[j] != ' '
  {
    if s[0] == ' ' then 0 else 1 + FirstSpace(s[1..])
  }

  /** `s.split(' ')`: the pieces between single spaces, empty pieces included. */
  function Split(s: string): (r: seq<string>)
    ensures |r| >= 1
    decreases |s|
  {
    if ' ' !in s then [s]
    else
      var i := FirstSpace(s);
      [s[..i]] + Split(s[i + 1..])
  }

  predicate NoSpace(w: string)
  {
    ' ' !in w
  }

  /** A space-free word followed by a space splits off as the first piece. */
  lemma SplitFirst(w: string, rest: string)
    requires NoSpace(w)
    ensures Split(w + " " + rest) == [w] + Split(rest)
  {
    var s := w + " " + rest;
    assert s[|w|] == ' ';
    var i := FirstSpace(s);
    assert i == |w| by {
      assert forall j :: 0 <= j < |w| ==> s[j] == w[j];
    }
    assert s[..i] == w;
    assert s[i + 1..] == rest;
  }

  /** Splitting a phrase of space-free words at its spaces gives the words back. */
  lemma {:induction false} SplitJoin(words: seq<string>)
    requires |words| >= 1
    requires forall i :: 0 <= i < |words| ==> NoSpace(words[i])
    ensures Split(Join(words)) == words
  {
    if |words| > 1 {
      SplitFirst(words[0], Join(words[1..]));
      SplitJoin(words[1..]);
      assert words == [words[0]] + words[1..];
    }
  }

  /** The mnemonic text built from 16 bytes of entropy. */
  function Phrase(entropy: seq<byte>, wordlist: seq<string>, sha256: Sha256): string
    requires |entropy| == 16 && |wordlist| >= WordListSize
  {
    MnemonicShape(entropy, sha256);
    Join(Words(MnemonicIndices(entropy, sha256), wordlist))
  }

  /**
   * With a word list of space-free words, the phrase splits into exactly
   * twelve words, each the list entry its index names.
   */
  lemma PhraseWords(entropy: seq<byte>, wordlist: seq<string>, sha256: Sha256)
    requires |entropy| == 16 && |wordlist| >= WordListSize
    requires forall i :: 0 <= i < |wordlist| ==> NoSpace(wordlist[i])
    ensures |MnemonicIndices(entropy, sha256)| == WordCount
    ensures |Split(Phrase(entropy, wordlist, sha256))| == WordCount
    ensures forall i :: 0 <= i < WordCount ==> MnemonicIndices(entropy, sha256)[i] < WordListSize
    ensures forall i :: 0 <= i < WordCount ==>
              Split(Phrase(entropy, wordlist, sha256))[i] == wordlist[MnemonicIndices(entropy, sha256)[i]]
  {
    MnemonicShape(entropy, sha256);
    var ws := Words(MnemonicIndices(entropy, sha256), wordlist);
    SplitJoin(ws);
  }

  /** No two entries of the word list are the same word. */
  predicate DistinctWords(wordlist: seq<string>)
  {
    forall i, j :: 0 <= i < j < |wordlist| ==> wordlist[i] != wordlist[j]
  }

  /**
   * Over a word list of distinct space-free words, the phrase determines the
   * entropy: two entropies with the same phrase are equal.
   */
  lemma PhraseInjective(e1: seq<byte>, e2: seq<byte>, wordlist: seq<string>, sha256: Sha256)
    requires |e1| == 16 && |e2| == 16 && |wordlist| >= WordListSize
    requires forall i :: 0 <= i < |wordlist| ==> NoSpace(wordlist[i])
    requires DistinctWords(wordlist)
    requires Phrase(e1, wordlist, sha256) == Phrase(e2, wordlist, sha256)
    ensures e1 == e2
  {
    PhraseWords(e1, wordlist, sha256);
    PhraseWords(e2, wordlist, sha256);
    var x, y := MnemonicIndices(e1, sha256), MnemonicIndices(e2, sha256);
    forall i | 0 <= i < WordCount
      ensures x[i] == y[i]
    {
      assert wordlist[x[i]] == wordlist[y[i]];
    }
    assert x == y;
    MnemonicDecodes(e1, sha256);
    MnemonicDecodes(e2, sha256);
  }
}
