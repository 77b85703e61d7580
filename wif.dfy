/**
 * `to_wif`: Wallet Import Format. The payload is a version byte (0x80 on the
 * main network, 0xef on the test network), the private key, a 0x01 flag when
 * the key is for a compressed public key, and the first four bytes of the
 * double SHA-256 of all that; the WIF string is the Base58 encoding of the
 * payload.
 *
 * `ParsePayload` and `DecodeWif` are the inverse the format is designed for;
 * the generator itself never decodes.
 */
module Wif {
  import opened Wrappers
  import opened Bytes
  import opened Hashes
  import Base58

  const MainnetVersion: byte := 0x80
  const TestnetVersion: byte := 0xef
  const CompressedFlag: byte := 0x01
  const ChecksumLength: nat := 4
  const PrivateKeyLength: nat := 32

  /** `b'\xef' if testnet else b'\x80'`. */
  function Version(testnet: bool): (r: byte)
    ensures r != 0
  {
    if testnet then TestnetVersion else MainnetVersion
  }

  /** The version byte, the key and, when compressed, the 0x01 flag. */
  function Extended(key: seq<byte>, compressed: bool, testnet: bool): seq<byte>
  {
    [Version(testnet)] + key + (if compressed then [CompressedFlag] else [])
  }

  /** `sha256(sha256(data).digest()).digest()[:4]`. */
  function Checksum(data: seq<byte>, sha256: Sha256): (r: seq<byte>)
    ensures |r| == ChecksumLength
  {
    sha256(sha256(data))[..ChecksumLength]
  }

  /** The bytes `to_wif` hands to `b58encode`. */
  function Payload(key: seq<byte>, compressed: bool, testnet: bool, sha256: Sha256): seq<byte>
  {
    var e := Extended(key, compressed, testnet);
    e + Checksum(e, sha256)
  }

  /**
   * Payload layout: version byte, key, optional flag, then four checksum
   * bytes over everything before them; 37 bytes for an uncompressed and 38
   * for a compressed 32-byte key.
   */
  lemma PayloadLayout(key: seq<byte>, compressed: bool, testnet: bool, sha256: Sha256)
    ensures var p := Payload(key, compressed, testnet, sha256);
      && |p| == |key| + (if compressed then 6 else 5)
      && p[0] == Version(testnet)
      && p[1..|key| + 1] == key
      && (compressed ==> p[|key| + 1] == CompressedFlag)
      && p[|p| - ChecksumLength..] == Checksum(p[..|p| - ChecksumLength], sha256)
    ensures |key| == PrivateKeyLength ==>
      |Payload(key, compressed, testnet, sha256)| == (if compressed then 38 else 37)
  {
    var e := Extended(key, compressed, testnet);
    var p := Payload(key, compressed, testnet, sha256);
    assert p[..|p| - ChecksumLength] == e;
    assert p[1..|key| + 1] == e[1..|key| + 1] == key;
  }

  /** A decoded WIF key. */
  datatype WifKey = WifKey(privateKey: seq<byte>, compressed: bool, testnet: bool)

  /** Reads a 37- or 38-byte payload back, checking version, flag and checksum. */
  function ParsePayload(p: seq<byte>, sha256: Sha256): Option<WifKey>
  {
    if |p| != 37 && |p| != 38 then None
    else
      var body := p[..|p| - ChecksumLength];
      if p[|p| - ChecksumLength..] != Checksum(body, sha256) then None
      else if body[0] != MainnetVersion && body[0] != TestnetVersion then None
      else if |p| == 38 && body[1 + PrivateKeyLength] != CompressedFlag then None
      else Some(WifKey(body[1..1 + PrivateKeyLength], |p| == 38, body[0] == TestnetVersion))
  }

  /** Base58 decoding followed by `ParsePayload`. */
  function DecodeWif(s: string, sha256: Sha256): Option<WifKey>
  {
    match Base58.Decode(s)
    case None => None
    case Some(p) => ParsePayload(p, sha256)
  }

  /** Parsing a payload built from a 32-byte key gives back the key and both flags. */
  lemma ParsePayloadOfPayload(key: seq<byte>, compressed: bool, testnet: bool, sha256: Sha256)
    requires |key| == PrivateKeyLength
    ensures ParsePayload(Payload(key, compressed, testnet, sha256), sha256) == Some(WifKey(key, compressed, testnet))
  {
    PayloadLayout(key, compressed, testnet, sha256);
  }

  /** Every payload that parses is exactly the payload built from what it parses to. */
  lemma PayloadOfParsePayload(p: seq<byte>, sha256: Sha256)
    requires ParsePayload(p, sha256).Some?
    ensures var k := ParsePayload(p, sha256).value;
      |k.privateKey| == PrivateKeyLength && p == Payload(k.privateKey, k.compressed, k.testnet, sha256)
  {
    var k := ParsePayload(p, sha256).value;
    var body := p[..|p| - ChecksumLength];
    assert body[0] == Version(k.testnet);
    if k.compressed {
      assert body == [body[0]] + body[1..1 + PrivateKeyLength] + [body[1 + PrivateKeyLength]];
    } else {
      assert body == [body[0]] + body[1..1 + PrivateKeyLength];
    }
    assert body == Extended(k.privateKey, k.compressed, k.testnet);
    assert p == body + p[|p| - ChecksumLength..];
  }

  /** Decoding the WIF of a 32-byte key gives back the key and both flags. */
  lemma WifRoundTrip(key: seq<byte>, compressed: bool, testnet: bool, sha256: Sha256)
    requires |key| == PrivateKeyLength
    ensures DecodeWif(Base58.Encode(Payload(key, compressed, testnet, sha256)), sha256)
            == Some(WifKey(key, compressed, testnet))
  {
    Base58.RoundTrip(Payload(key, compressed, testnet, sha256));
    ParsePayloadOfPayload(key, compressed, testnet, sha256);
  }

  /**
   * `to_wif(private_key, compressed, testnet)`: builds the extended key step
   * by step, appends the checksum and Base58-encodes it. The result never
   * starts with '1', since the version byte is not zero.
   */
  method ToWif(key: seq<byte>, compressed: bool, testnet: bool, sha256: Sha256) returns (s: string)
    ensures s == Base58.Encode(Payload(key, compressed, testnet, sha256))
    ensures Base58.LeadingOnes(s) == 0
    ensures |key| == PrivateKeyLength ==> DecodeWif(s, sha256) == Some(WifKey(key, compressed, testnet))
  {
    var extendedKey := [Version(testnet)] + key;
    if compressed {
      extendedKey := extendedKey + [CompressedFlag];
    }
    assert extendedKey == Extended(key, compressed, testnet);
    var doubleSha256 := sha256(sha256(extendedKey));
    extendedKey := extendedKey + doubleSha256[..ChecksumLength];
    s := Base58.B58Encode(extendedKey);
    if |key| == PrivateKeyLength {
      WifRoundTrip(key, compressed, testnet, sha256);
    }
  }

  /**
   * `to_wif(private_key)` with its default arguments, `compressed=True` and
   * `testnet=False`, as `main` calls it: a compressed key on the main network.
   */
  method ToWifDefault(key: seq<byte>, sha256: Sha256) returns (s: string)
    ensures s == Base58.Encode(Payload(key, true, false, sha256))
    ensures Base58.LeadingOnes(s) == 0
    ensures |key| == PrivateKeyLength ==> DecodeWif(s, sha256) == Some(WifKey(key, true, false))
  {
    s := ToWif(key, true, false, sha256);
  }
}
