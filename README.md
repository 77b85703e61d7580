# Bitcoin private key generator: verified model of `generator.py`

This project models the deterministic core of the generator, a script that
makes a twelve-word BIP-0039 mnemonic from mixed entropy, derives a master
private key from it and prints the key in Wallet Import Format:

- **Base58** (`ALPHABET`, `b58encode`). `Base58.B58Encode` is an imperative
  method with the source's two loops. The first loop folds the bytes after
  the leading zeros into one integer, last byte first. The second divides
  that integer by 58 and prepends a symbol each time. The method is proved
  equal to the specification function `Base58.Encode`. A reader
  `Base58.Decode` is added to state the round trip, the alphabet and the
  leading-'1' rule.
- **Entropy mixing** (`generate_new_key`, lines 38-72). Six 16-byte lanes are
  combined byte by byte with exclusive or, and the result is hashed and cut
  to 16 bytes. Four lanes are 8-byte readings written twice. One is the
  16-byte token draw. The last is 8 bytes of the hash of 10000 random
  decimal digits, written twice.
- **BIP-0039 encoding** (`generate_new_key`, lines 80-88). The 128 entropy
  bits and the top 4 bits of SHA-256(entropy) are cut into twelve 11-bit
  indices, and the indices are looked up in the word list and joined with
  spaces. Section "Generating the mnemonic from entropy" of BIP-0039
  describes the same encoding.
- **Key derivation** (`mnemonic_to_private_key`). The seed is
  PBKDF2-HMAC-SHA512 of the mnemonic under the salt "mnemonic" +
  `%Y%m%d%H%M%S` of the creation time, with 2048 iterations. The master key
  is HMAC-SHA512 under the key "Bitcoin seed", split into a 32-byte private
  key and a 32-byte chain code, as in "Master key generation" of BIP-0032.
- **WIF** (`to_wif`). The payload is a version byte, the key, an optional
  compression flag and a 4-byte double-SHA-256 checksum. The result is the
  Base58 encoding of that payload.

`Generator.GenerateNewKey` composes the mixing and the encoding.

SHA-256, PBKDF2 and HMAC-SHA512 are parameters: arbitrary functions whose
only known property is their output length (`Hashes`). The clocks and random
sources are parameters too: the fields of `EntropyMixing.Readings` and the
`KeyDerivation.DateTime` passed in. The word list is a parameter as well.

The code departs from BIP-0039 in one place: its salt is bound to the
creation time, not the fixed "mnemonic" + passphrase. The model follows the
code. Only the 12-word, 128-bit form exists in the code. No 24-word form, no
mnemonic check and no search for chosen words are present, so none is
modelled.

Files:
- `wrappers.dfy`: Option.
- `digits.dfy`: numerals in any base and their arithmetic.
- `bytes.dfy`: bytes, big-endian conversion, bytewise exclusive or, UTF-8.
- `hashes.dfy`: shapes of the hash parameters.
- `base58.dfy`, `entropy.dfy`, `bip39.dfy`, `keyderivation.dfy`, `wif.dfy`, `generator.dfy`: the parts above.

## Model

| member | source | states |
|---|---|---|
| Base58.Encode | generator.py:13-29 | What `b58encode(v)` returns, by definition: one '1' per leading zero byte, then the base-58 numeral of the big-endian value of the remaining bytes, written with the alphabet. Its properties are the lemmas below. |
| Base58.AlphabetShape | generator.py:11 | The alphabet has 58 symbols, each with a digit value, and none of them is `0`, `O`, `I` or `l`. |
| Base58.DigitOfAlphabet | generator.py:11 | The symbol at position d reads back as digit d, so the 58 symbols are distinct. |
| Base58.EncodeAlphabet | generator.py:24-29 | Every character of an encoding is in the alphabet, and none is a look-alike. |
| Base58.DigitPartStart | generator.py:24-28 | The digit part is empty exactly when the input is all zero bytes; otherwise its first digit is nonzero and its symbol is not '1'. |
| Base58.LeadingOnesOfEncode | generator.py:15-29 | The number of leading '1's of the encoding equals the number of leading zero bytes of the input. |
| Base58.EncodeValue | generator.py:19-28 | The non-padding suffix, read as base-58 digits through the alphabet, is the big-endian value of the input. |
| Base58.RoundTrip | generator.py:13-29 | Decoding an encoding gives the input back, leading zero bytes included. |
| Base58.B58Encode | generator.py:13-29 | The two-loop method returns the specified encoding. Its result decodes to the input and has one leading '1' per leading zero byte. |
| Bytes.ToBytes | generator.py:39 | `to_bytes(w, 'big')` of a value below 256^w has w bytes whose big-endian value is that value. |
| Bytes.ToBytesFromBytes | generator.py:39 | Every byte string is `to_bytes` of its own value at its own length. |
| Bytes.XorCancel | generator.py:60 | Exclusive or with the same byte twice is the identity. |
| Bytes.XorInjective | generator.py:60 | Exclusive or with a fixed byte is injective. |
| Bytes.Utf8Ascii | generator.py:56 | `.encode()` of ASCII text gives one byte per character, equal to its code. |
| Bytes.Utf8AsciiInjective | generator.py:94 | Distinct ASCII strings encode to distinct byte strings. |
| EntropyMixing.DigitText | generator.py:55 | The joined digit text has one decimal character per drawn digit. |
| EntropyMixing.ExtraEntropy | generator.py:56 | The extra lane is 8 bytes. |
| EntropyMixing.MixedEntropy | generator.py:59-69 | `mixed_entropy` by definition: the six lanes (four doubled 8-byte readings, the token draw, the doubled extra lane) combined with `zip` and exclusive or. `MixedEntropyBytes` gives its closed form. |
| EntropyMixing.MixedEntropyBytes | generator.py:59-69 | The mixed entropy has exactly 16 bytes. Byte i is the exclusive or of token byte i with byte i mod 8 of each 8-byte reading and of the extra lane. |
| EntropyMixing.MixingKeepsTokenDraw | generator.py:52-69 | With the other readings fixed, the mixed entropy determines the 16-byte token draw. |
| EntropyMixing.Entropy | generator.py:72 | The entropy is 16 bytes. |
| Bip39.EntropyBits | generator.py:80 | `bin(int.from_bytes(entropy, 'big'))[2:].zfill(128)` by definition; `EntropyBitsExact` gives its value. |
| Bip39.ChecksumBits | generator.py:81 | The first 4 characters of the 256-bit expansion of the digest. It has exactly 4 bits. |
| Bip39.BinaryZFill | generator.py:80-81 | `bin(n)[2:].zfill(w)` is the w-bit big-endian expansion of n when n fits in w bits. |
| Bip39.EntropyBitsExact | generator.py:80 | For 16 bytes the entropy bits are the 128-bit expansion of their big-endian value. |
| Bip39.TopNibbleValue | generator.py:81 | The top 4 of the 8k bits of a k-byte string are the high nibble of its first byte. |
| Bip39.ChecksumIsHighNibble | generator.py:81 | The checksum bits are the 4-bit expansion of the high nibble of the digest's first byte. |
| Bip39.Groups | generator.py:87 | Cutting into 11-bit slices gives ceil(n/11) indices. |
| Bip39.GroupsBound | generator.py:87 | Every index is below 2048. |
| Bip39.GroupsRoundTrip | generator.py:84-87 | For a whole number of 11-bit groups, writing the indices back as 11-bit groups gives the bits back. |
| Bip39.IndicesRoundTrip | generator.py:87 | Writing indices below 2048 as 11-bit groups and cutting again gives the indices back. |
| Bip39.MnemonicIndices | generator.py:84-87 | `indexes` by definition: the entropy bits and the checksum bits cut into 11-bit groups. `MnemonicShape` and `MnemonicDecodes` give its length, bound and content. |
| Bip39.MnemonicShape | generator.py:80-87 | 16 bytes of entropy give exactly 12 indices, each below 2048. |
| Bip39.ChecksumRoundTrip | generator.py:80-87 | The indices written back are the 128 entropy bits followed by the 4 bits of the high nibble of SHA-256(entropy). |
| Bip39.MnemonicDecodes | generator.py:80-87 | The 12 indices give back the entropy and the checksum nibble. |
| Bip39.SplitJoin | generator.py:88 | Joining space-free words with single spaces and splitting at spaces gives the words back. |
| Bip39.Phrase | generator.py:80-88 | `mnemonic` by definition: the words of the indices joined with single spaces. `PhraseWords` and `PhraseInjective` give its properties. |
| Bip39.PhraseWords | generator.py:80-88 | The mnemonic splits into exactly 12 words. Word i is the list entry of index i, which is below 2048. |
| Bip39.PhraseInjective | generator.py:80-88 | Over a list of distinct space-free words, equal mnemonics come from equal entropy. |
| KeyDerivation.Decimal | generator.py:93 | A zero-padded strftime field is w ASCII decimal digits. |
| KeyDerivation.DecimalInjective | generator.py:93 | Distinct values below 10^w give distinct w-digit fields. |
| KeyDerivation.Stamp | generator.py:93 | `strftime('%Y%m%d%H%M%S')` by definition: the six fields as zero-padded decimal fields of widths 4, 2, 2, 2, 2, 2. |
| KeyDerivation.Salt | generator.py:93 | `'mnemonic' + stamp` by definition; `SaltShape` and `SaltDeterminesSecond` give its properties. |
| KeyDerivation.SaltShape | generator.py:93 | The salt is "mnemonic" followed by exactly 14 ASCII digits. |
| KeyDerivation.SaltDeterminesSecond | generator.py:93 | Two valid times give the same salt exactly when they agree from year down to second. |
| KeyDerivation.MasterKeyOf | generator.py:97-99 | Private key and chain code are 32 bytes each, and together they are the HMAC-SHA512 of the seed under "Bitcoin seed". |
| KeyDerivation.Seed | generator.py:94 | PBKDF2-HMAC-SHA512 of the UTF-8 mnemonic under the UTF-8 salt with 2048 iterations. The result is 64 bytes. |
| KeyDerivation.MnemonicToPrivateKey | generator.py:92-101 | The returned private key is 32 bytes. |
| KeyDerivation.DerivationBoundToSecond | generator.py:92-101 | Times in the same second derive the same seed and key. Times in different seconds hand PBKDF2 different salt bytes. |
| Wif.Version | generator.py:104 | The version byte is never zero. |
| Wif.Extended | generator.py:104-108 | The version byte, then the key, then 0x01 when compressed, by definition; `PayloadLayout` gives its layout. |
| Wif.Checksum | generator.py:110-111 | The checksum is 4 bytes. |
| Wif.Payload | generator.py:104-111 | The extended key followed by its checksum, by definition; `PayloadLayout`, `ParsePayloadOfPayload` and `PayloadOfParsePayload` give its properties. |
| Wif.PayloadLayout | generator.py:103-111 | The payload is the version byte (0x80 or 0xef), the key, 0x01 exactly when compressed, then 4 bytes of SHA-256(SHA-256(everything before)). It has 38 bytes compressed and 37 uncompressed for a 32-byte key. |
| Wif.ParsePayloadOfPayload | generator.py:103-111 | Parsing the payload of a 32-byte key gives back the key, the compression flag and the network. |
| Wif.PayloadOfParsePayload | generator.py:103-111 | Every byte string that parses is exactly the payload built from its parse. |
| Wif.WifRoundTrip | generator.py:103-113 | Decoding the WIF string of a 32-byte key gives back the key and both flags. |
| Wif.ToWif | generator.py:103-113 | The method returns the Base58 encoding of the payload, which never starts with '1'. For a 32-byte key it decodes to the key and both flags. |
| Wif.ToWifDefault | generator.py:103-113 | `to_wif(key)` with its default arguments (compressed, main network), as `main` calls it at generator.py:131: the Base58 encoding of the compressed main-network payload, which never starts with '1' and decodes back to the key for a 32-byte key. |
| Generator.GenerateNewKey | generator.py:35-90 | `generate_new_key(wordlist)` by definition: the phrase of the mixed entropy and the time read. `GeneratedKeyShape` gives its properties. |
| Generator.GeneratedKeyShape | generator.py:35-90 | `generate_new_key` returns the time read and a mnemonic of 12 words from the list. Their indices carry the mixed entropy and its checksum nibble. |

## Left out

- gui.py as a whole: a tkinter front end with a worker thread and a timed progress bar. It only displays results. Its call `generate_new_key(..., word_count=...)` passes a parameter that generator.py does not accept; the model has generator.py's 12-word signature.
- `load_wordlist`: file I/O. The word list is a parameter.
- `main` and the `print` diagnostics: console output.
- Clocks and randomness are parameters: `time.time`, `time.perf_counter`, `time.process_time`, `SystemRandom().getrandbits`, `secrets.token_bytes`, `secrets.randbelow` and `datetime.now`. Their readings are taken as exact integers, so the float-to-int conversion is not modelled.
- `sha256`, `pbkdf2_hmac` and `hmac.new` are uninterpreted functions of fixed output length (32, 64 and 64 bytes). `int(sha256(entropy).hexdigest(), 16)` is modelled directly as the big-endian value of the digest.
- EntropyMixing.ValidReadings: readings of 2^64 or more are excluded. There, `to_bytes(8, 'big')` raises OverflowError, and that error path is not modelled.
- KeyDerivation.ValidDateTime: years are four digits (1000 to 9999), since `%Y` does not zero-pad shorter years on every platform. Calendar validity, such as days per month, is not checked.
- KeyDerivation.MnemonicToPrivateKey: the chain code is computed by `MasterKeyOf` but not returned, as in the source. Properties of the seed beyond the salt rely on the uninterpreted PBKDF2.
- Bits are modelled as sequences of 0/1 digits rather than the '0'/'1' characters of Python's `bin` strings.
- Base58 decoding and WIF parsing are not in the source. `Base58.Decode` and `Wif.DecodeWif` exist only to state the round trips.
