/**
 * `generate_new_key`: mixed entropy from the clock and random readings,
 * encoded as a twelve-word mnemonic, returned with the time it was made.
 * The word list is an input (reading `english.txt` is not modelled).
 */
module Generator {
  import opened Bytes
  import opened Hashes
  import EntropyMixing
  import Bip39
  import KeyDerivation

  /** `generate_new_key(wordlist)`: the mnemonic and the current time. */
  function GenerateNewKey(r: EntropyMixing.Readings, now: KeyDerivation.DateTime,
                          wordlist: seq<string>, sha256: Sha256): (string, KeyDerivation.DateTime)
    requires EntropyMixing.ValidReadings(r) && |wordlist| >= Bip39.WordListSize
  {
    (Bip39.Phrase(EntropyMixing.Entropy(r, sha256), wordlist, sha256), now)
  }

  /**
   * With a list of space-free words, the mnemonic is twelve words of the
   * list, their indices carry the mixed entropy and its checksum nibble, and
   * the time returned is the time read.
   */
  lemma GeneratedKeyShape(r: EntropyMixing.Readings, now: KeyDerivation.DateTime,
                          wordlist: seq<string>, sha256: Sha256)
    requires EntropyMixing.ValidReadings(r) && |wordlist| >= Bip39.WordListSize
    requires forall i :: 0 <= i < |wordlist| ==> Bip39.NoSpace(wordlist[i])
    ensures var (mnemonic, t) := GenerateNewKey(r, now, wordlist, sha256);
      var entropy := EntropyMixing.Entropy(r, sha256);
      var indices := Bip39.MnemonicIndices(entropy, sha256);
      && t == now
      && |Bip39.Split(mnemonic)| == Bip39.WordCount
      && |indices| == Bip39.WordCount
      && (forall i :: 0 <= i < Bip39.WordCount ==>
            indices[i] < Bip39.WordListSize && Bip39.Split(mnemonic)[i] == wordlist[indices[i]])
      && Bip39.EntropyOfIndices(indices) == entropy
      && Bip39.ChecksumOfIndices(indices) == sha256(entropy)[0] / 16
  {
    var entropy := EntropyMixing.Entropy(r, sha256);
    Bip39.PhraseWords(entropy, wordlist, sha256);
    Bip39.MnemonicDecodes(entropy, sha256);
  }
}
