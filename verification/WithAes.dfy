/** The wide-block modes over AES-256: the hypothesis that the block cipher is a
    permutation is discharged. */
module WithAes {
  import opened Blocks
  import opened Wrappers
  import Aes
  import AesImpl
  import Adiantum
  import Hctr2

  function AesCipher(key: Aes.Key): Cipher {
    var rk := AesImpl.RoundKeysOf(key);
    Cipher((x: Block) => Aes.Encrypt(rk, x), (x: Block) => Aes.Decrypt(rk, x))
  }

  lemma AesIsPermutation(key: Aes.Key)
    ensures Permutation(AesCipher(key))
  {
    hide Aes.Encrypt, Aes.Decrypt;
    forall x: Block ensures AesCipher(key).dec(AesCipher(key).enc(x)) == x && AesCipher(key).enc(AesCipher(key).dec(x)) == x {
      Aes.DecryptEncrypt(AesImpl.RoundKeysOf(key), x);
    }
  }

  /** HCTR2: for every key, tweak and message of at least a block, deciphering
      inverts enciphering and the other way round. */
  lemma Hctr2RoundTrip(key: Aes.Key, tweak: Bytes, text: Bytes)
    requires |text| >= 16
    ensures Hctr2.Decrypt(AesCipher(key), tweak, Hctr2.Encrypt(AesCipher(key), tweak, text).value) == Some(text)
    ensures Hctr2.Encrypt(AesCipher(key), tweak, Hctr2.Decrypt(AesCipher(key), tweak, text).value) == Some(text)
  {
    hide Permutation, AesCipher, Hctr2.Encrypt, Hctr2.Decrypt;
    AesIsPermutation(key);
    Hctr2.DecryptEncrypt(AesCipher(key), tweak, text);
    Hctr2.EncryptDecrypt(AesCipher(key), tweak, text);
  }

  /** Adiantum: the same, for every stream and hash. */
  lemma AdiantumRoundTrip(key: Aes.Key, stream: (Bytes, nat) -> Byte, hash: (Bytes, Bytes) -> Block, tweak: Bytes, text: Bytes)
    requires |text| >= 16
    ensures var k := Adiantum.Keys(AesCipher(key), stream, hash);
            && Adiantum.Decrypt(k, tweak, Adiantum.Encrypt(k, tweak, text)) == text
            && Adiantum.Encrypt(k, tweak, Adiantum.Decrypt(k, tweak, text)) == text
  {
    hide Permutation, AesCipher, Adiantum.Encrypt, Adiantum.Decrypt;
    AesIsPermutation(key);
    var k := Adiantum.Keys(AesCipher(key), stream, hash);
    Adiantum.DecryptEncryptIff(k, tweak, text);
    Adiantum.EncryptDecrypt(k, tweak, text);
  }
}
