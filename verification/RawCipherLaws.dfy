/** What the raw cipher layer promises of every cipher type, key, IV and data string. */
module RawCipherLaws {
  import opened Bytes
  import opened CipherModes
  import opened Pkcs7
  import opened RawCipher
  import opened RustText
  import opened Wrappers

  // ---------- Encryption and decryption are inverse ----------

  lemma InverseWith(c: BlockCipher, iv: seq<byte>, mode: Mode, padding: Padding, data: seq<byte>, text: seq<byte>)
    requires c.Valid() && |iv| == c.size
    requires Encryptable(c.size, mode, padding, data)
    ensures DecryptWith(c, iv, mode, padding, text) == Some(data)
       <==> EncryptWith(c, iv, mode, padding, data) == text
  {
    if mode == Cfb {
      CfbDecryptUndoesEncrypt(c, iv, data);
      CfbEncryptUndoesDecrypt(c, iv, text);
    } else {
      var blocks := if padding == Pkcs then Pad(c.size, data) else data;
      CbcDecryptUndoesEncrypt(c, iv, blocks);
      EcbInverse(c, blocks);
      if Aligned(c.size, text) {
        CbcEncryptUndoesDecrypt(c, iv, text);
        EcbInverse(c, text);
        UnpadIffPad(c.size, if mode == Cbc then CbcDecrypt(c, iv, text) else EcbDecrypt(c, text), data);
      }
    }
  }

  /** Decryption yields `data` from `text` exactly when encryption yields `text` from `data`. */
  lemma DecryptIffEncrypt(p: Primitives, data: seq<byte>, text: seq<byte>, key: seq<byte>, iv: seq<byte>,
                          cipherType: string)
    requires p.Lawful() && EncryptableAs(cipherType, data)
    ensures DecryptIv(p, text, key, iv, cipherType) == Some(data)
       <==> EncryptIv(p, data, key, iv, cipherType) == Some(text)
  {
    var t := ParseType(cipherType);
    if t.Some? && UsableKey(t.value.algorithm, key) {
      var c := Keyed(p, t.value.algorithm, key).value;
      InverseWith(c, Fixed(c.size, iv), t.value.mode, t.value.padding, data, text);
    }
  }

  /** Encryption fails only on the type string or the key; whatever it returns decrypts to the data. */
  lemma RoundTrip(p: Primitives, data: seq<byte>, key: seq<byte>, iv: seq<byte>, cipherType: string)
    requires p.Lawful() && EncryptableAs(cipherType, data)
    ensures var t, text := ParseType(cipherType), EncryptIv(p, data, key, iv, cipherType);
      && (text.Some? <==> t.Some? && UsableKey(t.value.algorithm, key))
      && (text.Some? ==>
            && DecryptIv(p, text.value, key, iv, cipherType) == Some(data)
            && var b := BlockSize(t.value.algorithm);
               |text.value| == if t.value.padding == Pkcs && t.value.mode != Cfb then (|data| / b + 1) * b else |data|)
  {
    var text := EncryptIv(p, data, key, iv, cipherType);
    if text.Some? {
      DecryptIffEncrypt(p, data, text.value, key, iv, cipherType);
    }
  }

  /** Whatever decryption accepts is the encryption of what it returns. */
  lemma Converse(p: Primitives, text: seq<byte>, key: seq<byte>, iv: seq<byte>, cipherType: string)
    requires p.Lawful()
    requires DecryptIv(p, text, key, iv, cipherType).Some?
    ensures var data := DecryptIv(p, text, key, iv, cipherType).value;
      EncryptableAs(cipherType, data) && EncryptIv(p, data, key, iv, cipherType) == Some(text)
  {
    DecryptIffEncrypt(p, DecryptIv(p, text, key, iv, cipherType).value, text, key, iv, cipherType);
  }

  /** With PKCS padding, encryption is a bijection from all strings onto those that decryption accepts. */
  lemma PkcsBijection(p: Primitives, key: seq<byte>, iv: seq<byte>, cipherType: string)
    requires p.Lawful()
    requires var t := ParseType(cipherType); t.Some? && t.value.padding == Pkcs && UsableKey(t.value.algorithm, key)
    ensures forall text :: DecryptIv(p, text, key, iv, cipherType).Some?
                      <==> exists data :: EncryptIv(p, data, key, iv, cipherType) == Some(text)
    ensures forall data, other ::
              EncryptIv(p, data, key, iv, cipherType) == EncryptIv(p, other, key, iv, cipherType) ==> data == other
    ensures ParseType(cipherType).value.mode != Cfb ==> DecryptIv(p, [], key, iv, cipherType) == None
  {
    forall text
      ensures DecryptIv(p, text, key, iv, cipherType).Some?
         <==> exists data :: EncryptIv(p, data, key, iv, cipherType) == Some(text)
    {
      if DecryptIv(p, text, key, iv, cipherType).Some? {
        Converse(p, text, key, iv, cipherType);
      }
      forall data | EncryptIv(p, data, key, iv, cipherType) == Some(text)
        ensures DecryptIv(p, text, key, iv, cipherType).Some?
      {
        DecryptIffEncrypt(p, data, text, key, iv, cipherType);
      }
    }
    forall data, other | EncryptIv(p, data, key, iv, cipherType) == EncryptIv(p, other, key, iv, cipherType)
      ensures data == other
    {
      RoundTrip(p, data, key, iv, cipherType);
      RoundTrip(p, other, key, iv, cipherType);
    }
  }

  // ---------- Error locality ----------

  /** a and b are equally long and differ in block i at most. */
  ghost predicate DifferOnlyIn(n: nat, a: seq<byte>, b: seq<byte>, i: nat)
    requires IsBlockSize(n)
  {
    && |a| == |b|
    && i < |Blocks(n, a)|
    && forall j | 0 <= j < |Blocks(n, a)| && j < |Blocks(n, b)| && j != i :: Blocks(n, a)[j] == Blocks(n, b)[j]
  }

  /** x and y, the plaintexts of a and b, are cut alike and agree but for block i and, if `next`, block i + 1. */
  ghost predicate AgreeElsewhere(n: nat, a: seq<byte>, b: seq<byte>, x: seq<byte>, y: seq<byte>, i: nat, next: bool)
    requires IsBlockSize(n)
  {
    && |Blocks(n, x)| == |Blocks(n, y)| == |Blocks(n, a)| == |Blocks(n, b)|
    && i < |Blocks(n, x)|
    && (forall j | 0 <= j < |Blocks(n, x)| && j != i && !(next && j == i + 1) :: Blocks(n, x)[j] == Blocks(n, y)[j])
  }

  lemma SameBlockMeansSame(n: nat, a: seq<byte>, b: seq<byte>, i: nat)
    requires IsBlockSize(n) && DifferOnlyIn(n, a, b, i)
    ensures |Blocks(n, a)| == |Blocks(n, b)|
    ensures Blocks(n, a)[i] == Blocks(n, b)[i] <==> a == b
  {
    BlocksOfEqualLengths(n, a, b);
    if Blocks(n, a)[i] == Blocks(n, b)[i] {
      assert Blocks(n, a) == Blocks(n, b);
      BlocksDetermine(n, a, b);
    }
  }

  ghost predicate EcbDamage(n: nat, a: seq<byte>, b: seq<byte>, x: seq<byte>, y: seq<byte>, i: nat)
    requires IsBlockSize(n)
  {
    && AgreeElsewhere(n, a, b, x, y, i, false)
    && (Blocks(n, x)[i] == Blocks(n, y)[i] <==> a == b)
  }

  lemma EcbLocal(c: BlockCipher, a: seq<byte>, b: seq<byte>, i: nat)
    requires c.Valid() && Aligned(c.size, a) && DifferOnlyIn(c.size, a, b, i)
    ensures EcbDamage(c.size, a, b, EcbDecrypt(c, a), EcbDecrypt(c, b), i)
  {
    BlocksOfEqualLengths(c.size, a, b);
    EcbDecryptBlocks(c, a);
    EcbDecryptBlocks(c, b);
    SameBlockMeansSame(c.size, a, b, i);
    var qa, qb := Blocks(c.size, a), Blocks(c.size, b);
    assert c.enc(c.dec(qa[i])) == qa[i] && c.enc(c.dec(qb[i])) == qb[i];
  }

  /** ECB: damage in one ciphertext block damages that plaintext block, and no other. */
  lemma EcbErrorLocality(p: Primitives, a: seq<byte>, b: seq<byte>, key: seq<byte>, iv: seq<byte>, cipherType: string,
                         t: CipherType, i: nat)
    requires p.Lawful() && ParseType(cipherType) == Some(t) && t.mode == Ecb && t.padding == NoPadding
    requires DifferOnlyIn(BlockSize(t.algorithm), a, b, i)
    ensures var x, y := DecryptIv(p, a, key, iv, cipherType), DecryptIv(p, b, key, iv, cipherType);
      (x.Some? <==> y.Some?) && (x.Some? ==> EcbDamage(BlockSize(t.algorithm), a, b, x.value, y.value, i))
  {
    hide EcbDamage, EcbDecrypt;
    if DecryptIv(p, a, key, iv, cipherType).Some? {
      EcbLocal(Keyed(p, t.algorithm, key).value, a, b, i);
    }
  }

  ghost predicate CbcDamage(n: nat, a: seq<byte>, b: seq<byte>, x: seq<byte>, y: seq<byte>, i: nat)
    requires IsBlockSize(n) && |a| == |b|
  {
    && AgreeElsewhere(n, a, b, x, y, i, true)
    && (Blocks(n, x)[i] == Blocks(n, y)[i] <==> a == b)
    && (i + 1 < |Blocks(n, x)| ==>
          && |Blocks(n, a)[i]| == |Blocks(n, b)[i]| == |Blocks(n, x)[i + 1]|
          && Blocks(n, y)[i + 1] == Xor(Blocks(n, x)[i + 1], Xor(Blocks(n, a)[i], Blocks(n, b)[i])))
  }

  lemma CbcLocal(c: BlockCipher, iv: seq<byte>, a: seq<byte>, b: seq<byte>, i: nat)
    requires c.Valid() && |iv| == c.size && Aligned(c.size, a) && DifferOnlyIn(c.size, a, b, i)
    ensures CbcDamage(c.size, a, b, CbcDecrypt(c, iv, a), CbcDecrypt(c, iv, b), i)
  {
    hide CbcDecrypt, Xor, Blocks;
    BlocksOfEqualLengths(c.size, a, b);
    CbcDecryptBlocks(c, iv, a);
    CbcDecryptBlocks(c, iv, b);
    SameBlockMeansSame(c.size, a, b, i);
    var x, y := Blocks(c.size, CbcDecrypt(c, iv, a)), Blocks(c.size, CbcDecrypt(c, iv, b));
    var qa, qb := Blocks(c.size, a), Blocks(c.size, b);
    if x[i] == y[i] {
      XorInjective(Chain(iv, qa, i), c.dec(qa[i]), c.dec(qb[i]));
      assert c.enc(c.dec(qa[i])) == qa[i] && c.enc(c.dec(qb[i])) == qb[i];
    }
    if i + 1 < |x| {
      XorDifference(c.dec(qa[i + 1]), qa[i], qb[i]);
    }
  }

  /** CBC: block i is damaged, block i + 1 is moved by exactly the difference, nothing else changes. */
  lemma CbcErrorLocality(p: Primitives, a: seq<byte>, b: seq<byte>, key: seq<byte>, iv: seq<byte>, cipherType: string,
                         t: CipherType, i: nat)
    requires p.Lawful() && ParseType(cipherType) == Some(t) && t.mode == Cbc && t.padding == NoPadding
    requires DifferOnlyIn(BlockSize(t.algorithm), a, b, i)
    ensures var x, y := DecryptIv(p, a, key, iv, cipherType), DecryptIv(p, b, key, iv, cipherType);
      (x.Some? <==> y.Some?) && (x.Some? ==> CbcDamage(BlockSize(t.algorithm), a, b, x.value, y.value, i))
  {
    hide CbcDamage, CbcDecrypt;
    if DecryptIv(p, a, key, iv, cipherType).Some? {
      var c := Keyed(p, t.algorithm, key).value;
      CbcLocal(c, Fixed(c.size, iv), a, b, i);
    }
  }

  /** What CFB makes of damage, under the forward cipher `enc`. */
  ghost predicate CfbDamage(n: nat, enc: seq<byte> -> seq<byte>, a: seq<byte>, b: seq<byte>,
                            x: seq<byte>, y: seq<byte>, i: nat)
    requires IsBlockSize(n) && |a| == |b|
  {
    var (qa, qb, p, r) := (Blocks(n, a), Blocks(n, b), Blocks(n, x), Blocks(n, y));
    && AgreeElsewhere(n, a, b, x, y, i, true)
    && |qa[i]| == |qb[i]| == |p[i]|
    && r[i] == Xor(p[i], Xor(qa[i], qb[i]))
    && (i + 1 < |p| ==>
          && |qa[i]| == n && |enc(qa[i])| == |enc(qb[i])| == n
          && var next := |p[i + 1]|;
             && r[i + 1] == Xor(p[i + 1], Xor(enc(qa[i])[..next], enc(qb[i])[..next]))
             && (next == n ==> (p[i + 1] == r[i + 1] <==> a == b)))
  }

  /** What one block is to two registers: the two results differ as the two masks do. */
  lemma OtherRegister(c: BlockCipher, block: seq<byte>, register: seq<byte>, register': seq<byte>)
    requires c.Valid() && |block| <= c.size == |register| == |register'|
    ensures var mask, mask' := c.enc(register)[..|block|], c.enc(register')[..|block|];
      && Xor(block, mask') == Xor(Xor(block, mask), Xor(mask, mask'))
      && (|block| == c.size ==> (Xor(block, mask) == Xor(block, mask') <==> register == register'))
  {
    var mask, mask' := c.enc(register)[..|block|], c.enc(register')[..|block|];
    XorDifference(block, mask, mask');
    if |block| == c.size && Xor(block, mask) == Xor(block, mask') {
      XorCancels(mask, block);
      XorCancels(mask', block);
      assert mask == c.enc(register) && mask' == c.enc(register');
      assert c.dec(c.enc(register)) == register && c.dec(c.enc(register')) == register';
    }
  }

  lemma CfbLocal(c: BlockCipher, iv: seq<byte>, a: seq<byte>, b: seq<byte>, i: nat)
    requires c.Valid() && |iv| == c.size && DifferOnlyIn(c.size, a, b, i)
    ensures CfbDamage(c.size, c.enc, a, b, CfbDecrypt(c, iv, a), CfbDecrypt(c, iv, b), i)
  {
    hide CfbDecrypt, Xor, Blocks;
    BlocksOfEqualLengths(c.size, a, b);
    CfbDecryptBlocks(c, iv, a);
    CfbDecryptBlocks(c, iv, b);
    SameBlockMeansSame(c.size, a, b, i);
    var qa, qb := Blocks(c.size, a), Blocks(c.size, b);
    XorDifference(c.enc(Chain(iv, qa, i))[..|qa[i]|], qa[i], qb[i]);
    if i + 1 < |qa| {
      OtherRegister(c, qa[i + 1], qa[i], qb[i]);
    }
  }

  /**
    CFB, whatever the padding says: block i is moved by exactly the difference, block i + 1 by the difference of
    the two blocks enciphered, which is zero on a full block only if there is no damage; nothing else changes.
   */
  lemma CfbErrorLocality(p: Primitives, a: seq<byte>, b: seq<byte>, key: seq<byte>, iv: seq<byte>, cipherType: string,
                         t: CipherType, i: nat)
    requires p.Lawful() && ParseType(cipherType) == Some(t) && t.mode == Cfb
    requires DifferOnlyIn(BlockSize(t.algorithm), a, b, i)
    ensures var x, y := DecryptIv(p, a, key, iv, cipherType), DecryptIv(p, b, key, iv, cipherType);
      && (x.Some? <==> y.Some?) && (x.Some? <==> UsableKey(t.algorithm, key))
      && (x.Some? ==> CfbDamage(BlockSize(t.algorithm), Keyed(p, t.algorithm, key).value.enc,
                                a, b, x.value, y.value, i))
  {
    hide CfbDamage, CfbDecrypt;
    if DecryptIv(p, a, key, iv, cipherType).Some? {
      var c := Keyed(p, t.algorithm, key).value;
      CfbLocal(c, Fixed(c.size, iv), a, b, i);
    }
  }

  /** CBC: another IV changes the first plaintext block only, by the difference of the normalised IVs. */
  lemma CbcOtherIv(p: Primitives, text: seq<byte>, key: seq<byte>, iv: seq<byte>, iv': seq<byte>, cipherType: string,
                   t: CipherType)
    requires p.Lawful() && ParseType(cipherType) == Some(t)
    requires t.mode == Cbc && t.padding == NoPadding
    ensures var n := BlockSize(t.algorithm);
      var r, r' := DecryptIv(p, text, key, iv, cipherType), DecryptIv(p, text, key, iv', cipherType);
      && (r.Some? <==> r'.Some?)
      && (r.Some? ==>
            var x, y := Blocks(n, r.value), Blocks(n, r'.value);
            && |x| == |y|
            && (forall j | 1 <= j < |x| :: x[j] == y[j])
            && (x != [] ==> y[0] == Xor(x[0], Xor(Fixed(n, iv), Fixed(n, iv')))))
  {
    var r := DecryptIv(p, text, key, iv, cipherType);
    if r.Some? {
      var c := Keyed(p, t.algorithm, key).value;
      var v, v' := Fixed(c.size, iv), Fixed(c.size, iv');
      CbcDecryptBlocks(c, v, text);
      CbcDecryptBlocks(c, v', text);
      var q := Blocks(c.size, text);
      forall j | 1 <= j < |q|
        ensures Chain(v, q, j) == Chain(v', q, j)
      {
      }
      if q != [] {
        XorDifference(c.dec(q[0]), v, v');
      }
    }
  }

  // ---------- What does not matter about key, IV and type ----------

  /** The IV counts through its first block only, missing octets counting as zero, and ECB ignores it. */
  lemma SameIv(p: Primitives, data: seq<byte>, key: seq<byte>, iv: seq<byte>, iv': seq<byte>, cipherType: string,
               t: CipherType, decrypting: bool)
    requires p.Lawful() && ParseType(cipherType) == Some(t)
    requires !decrypting ==> EncryptableAs(cipherType, data)
    requires || t.mode == Ecb
             || (forall i | 0 <= i < BlockSize(t.algorithm) ::
                   (if i < |iv| then iv[i] else 0) == (if i < |iv'| then iv'[i] else 0))
    ensures Transform(p, data, key, iv, cipherType, decrypting) == Transform(p, data, key, iv', cipherType, decrypting)
  {
    var n := BlockSize(t.algorithm);
    if t.mode != Ecb {
      assert forall i | 0 <= i < n :: Fixed(n, iv)[i] == Fixed(n, iv')[i];
      assert Fixed(n, iv) == Fixed(n, iv');
    }
  }

  /** `encrypt` and `decrypt` are their IV forms under any IV of zeros. */
  lemma WithoutIv(p: Primitives, data: seq<byte>, key: seq<byte>, length: nat, cipherType: string)
    requires p.Lawful()
    ensures EncryptableAs(cipherType, data) ==>
              Encrypt(p, data, key, cipherType) == EncryptIv(p, data, key, Zeros(length), cipherType)
    ensures Decrypt(p, data, key, cipherType) == DecryptIv(p, data, key, Zeros(length), cipherType)
  {
    var t := ParseType(cipherType);
    if t.Some? {
      if EncryptableAs(cipherType, data) {
        SameIv(p, data, key, [], Zeros(length), cipherType, t.value, false);
      }
      SameIv(p, data, key, [], Zeros(length), cipherType, t.value, true);
    }
  }

  /** The AES key is the given one, filled up with zeros to the smallest of the three key sizes that holds it. */
  lemma AesKeyFillsSmallestSize(key: seq<byte>)
    ensures AesKey(key).Some? <==> |key| <= 32
    ensures AesKey(key).Some? ==>
              var k := AesKey(key).value;
              && |k| in {16, 24, 32} && k == key + Zeros(|k| - |key|)
              && (|key| <= 16 ==> |k| == 16) && (16 < |key| <= 24 ==> |k| == 24)
  {
    if |key| <= 32 {
      var k := AesKey(key).value;
      assert k == key + Zeros(|k| - |key|);
    }
  }

  /** AES keys of one length tier act alike when they agree up to trailing zeros. */
  lemma SameAesKey(p: Primitives, data: seq<byte>, key: seq<byte>, key': seq<byte>, iv: seq<byte>, cipherType: string,
                   t: CipherType, decrypting: bool)
    requires p.Lawful() && ParseType(cipherType) == Some(t) && t.algorithm == Aes
    requires !decrypting ==> EncryptableAs(cipherType, data)
    requires AesTier(|key|) == AesTier(|key'|)
    requires forall i | 0 <= i < 32 :: (if i < |key| then key[i] else 0) == (if i < |key'| then key'[i] else 0)
    ensures Transform(p, data, key, iv, cipherType, decrypting) == Transform(p, data, key', iv, cipherType, decrypting)
  {
    var tier := AesTier(|key|);
    if tier.Some? {
      assert forall i | 0 <= i < tier.value :: Fixed(tier.value, key)[i] == Fixed(tier.value, key')[i];
      assert Fixed(tier.value, key) == Fixed(tier.value, key');
    }
  }

  /** The octet string a key schedule reads when it cycles through its key. */
  function KeyStream(key: seq<byte>, length: nat): (r: seq<byte>)
    requires key != []
    ensures |r| == length
  {
    seq(length, i requires 0 <= i => key[i % |key|])
  }

  /** The octets of a Blowfish key that count. */
  function BlowfishCut(key: seq<byte>): seq<byte> {
    key[..if |key| < 56 then |key| else 56]
  }

  /** Repeating a short Blowfish key does not change what a cycling key schedule reads. */
  lemma BlowfishKeyStream(key: seq<byte>, length: nat)
    requires key != []
    ensures 4 <= |BlowfishKey(key)| <= 56
    ensures KeyStream(BlowfishKey(key), length) == KeyStream(BlowfishCut(key), length)
  {
    var cut, out := BlowfishCut(key), BlowfishKey(key);
    forall i | 0 <= i < length
      ensures out[i % |out|] == cut[i % |cut|]
    {
      if |cut| < 4 {
        assert |out| == if |cut| == 3 then 6 else 4;
        assert |cut| == 1 ==> (i % 4) % 1 == i % 1;
        assert |cut| == 2 ==> (i % 4) % 2 == i % 2;
        assert |cut| == 3 ==> (i % 6) % 3 == i % 3;
        assert forall j | 0 <= j < |out| :: out[j] == cut[j % |cut|];
      }
    }
  }

  /** The length of the key that is built from one of the given length. */
  function BlowfishKeyLength(length: nat): nat {
    if length == 3 then 6 else if 1 <= length <= 2 then 4 else if length < 56 then length else 56
  }

  lemma KeyStreamStarts(key: seq<byte>, length: nat)
    requires 0 < |key| <= length
    ensures KeyStream(key, length)[..|key|] == key
  {
    forall i | 0 <= i < |key|
      ensures KeyStream(key, length)[i] == key[i]
    {
      SmallModulo(i, |key|);
    }
  }

  lemma SmallModulo(i: nat, n: nat)
    requires i < n
    ensures i % n == i
  {
  }

  /** Two built keys are equal exactly when they are equally long and the given keys, cut and cycled, agree. */
  lemma EqualBlowfishKeysIff(key: seq<byte>, key': seq<byte>)
    requires key != [] && key' != []
    ensures BlowfishKey(key) == BlowfishKey(key')
       <==> && BlowfishKeyLength(|key|) == BlowfishKeyLength(|key'|)
            && KeyStream(BlowfishCut(key), 56) == KeyStream(BlowfishCut(key'), 56)
  {
    assert forall k {:trigger BlowfishKey(k)} | k in {key, key'} :: |BlowfishKey(k)| == BlowfishKeyLength(|k|);
    hide BlowfishKey, KeyStream, BlowfishCut;
    KeyStreamStarts(BlowfishKey(key), 56);
    KeyStreamStarts(BlowfishKey(key'), 56);
    BlowfishKeyStream(key, 56);
    BlowfishKeyStream(key', 56);
  }

  /** Such keys act alike. */
  lemma SameBlowfishKey(p: Primitives, data: seq<byte>, key: seq<byte>, key': seq<byte>, iv: seq<byte>,
                        cipherType: string, t: CipherType, decrypting: bool)
    requires p.Lawful() && ParseType(cipherType) == Some(t) && t.algorithm == Blowfish
    requires !decrypting ==> EncryptableAs(cipherType, data)
    requires key != [] && key' != []
    requires BlowfishKeyLength(|key|) == BlowfishKeyLength(|key'|)
    requires KeyStream(BlowfishCut(key), 56) == KeyStream(BlowfishCut(key'), 56)
    ensures Transform(p, data, key, iv, cipherType, decrypting) == Transform(p, data, key', iv, cipherType, decrypting)
  {
    EqualBlowfishKeysIff(key, key');
  }

  /** A Blowfish key acts like its first 56 octets, and one of fewer than four like its repetition. */
  lemma CutOrRepeatedBlowfishKey(p: Primitives, data: seq<byte>, key: seq<byte>, iv: seq<byte>, cipherType: string,
                                 t: CipherType, decrypting: bool)
    requires p.Lawful() && ParseType(cipherType) == Some(t) && t.algorithm == Blowfish
    requires !decrypting ==> EncryptableAs(cipherType, data)
    ensures var other := if |key| == 1 then key + key + key + key
                         else if 2 <= |key| <= 3 then key + key
                         else if |key| > 56 then key[..56] else key;
      Transform(p, data, key, iv, cipherType, decrypting) == Transform(p, data, other, iv, cipherType, decrypting)
  {
    assert BlowfishKey(BlowfishKey(key)) == BlowfishKey(key);
    assert |key| < 4 ==> key[..|key|] == key;
    assert key[..|key|] == key;
  }

  // ---------- The spellings of a cipher type ----------

  predicate NamesAlgorithm(s: string, algorithm: Algorithm) {
    if algorithm == Aes then s == "aes" || s == "rijndael" else s == "bf" || s == "blowfish"
  }

  predicate NamesMode(s: string, mode: Mode) {
    match mode
    case Cbc => s == "" || s == "-cbc"
    case Cfb => s == "-cfb"
    case Ecb => s == "-ecb"
  }

  predicate NamesPadding(s: string, padding: Padding) {
    if padding == Pkcs then s == "" || s == "/pad:pkcs" else s == "/pad:none"
  }

  /** s is an algorithm name, a mode suffix and a padding suffix, in this order. */
  ghost predicate Spells(s: string, t: CipherType) {
    exists a: string, m: string, q: string ::
      && NamesAlgorithm(a, t.algorithm) && NamesMode(m, t.mode) && NamesPadding(q, t.padding)
      && s == a + m + q
  }

  lemma Concatenations()
    ensures "aes" + "-cbc" == "aes-cbc" && "rijndael" + "-cbc" == "rijndael-cbc"
    ensures "aes" + "-cfb" == "aes-cfb" && "rijndael" + "-cfb" == "rijndael-cfb"
    ensures "aes" + "-ecb" == "aes-ecb" && "rijndael" + "-ecb" == "rijndael-ecb"
    ensures "bf" + "-cbc" == "bf-cbc" && "blowfish" + "-cbc" == "blowfish-cbc"
    ensures "bf" + "-cfb" == "bf-cfb" && "blowfish" + "-cfb" == "blowfish-cfb"
    ensures "bf" + "-ecb" == "bf-ecb" && "blowfish" + "-ecb" == "blowfish-ecb"
    ensures forall s: string :: s + "" == s
  {
  }

  /** The names differ in length, in the first, or in the last but one character. */
  lemma CipherModeMarks(i: nat)
    requires i < |CIPHER_MODES|
    ensures var s, (algorithm, mode) := CIPHER_MODES[i].0, CIPHER_MODES[i].1;
      && |s| == [3, 7, 8, 12, 7, 12, 7, 12, 2, 6, 8, 12, 6, 12, 6, 12][i]
      && s[0] == (if algorithm == Blowfish then 'b' else if |s| >= 8 then 'r' else 'a')
      && (mode == Cfb ==> s[|s| - 2] == 'f') && (mode == Ecb ==> s[|s| - 2] == 'c')
      && (mode == Cbc && |s| !in {2, 3, 8} ==> s[|s| - 2] == 'b')
  {
  }

  lemma CipherModesAreDistinct(i: nat, j: nat)
    requires i < j < |CIPHER_MODES|
    ensures CIPHER_MODES[i].0 != CIPHER_MODES[j].0
  {
    CipherModeMarks(i);
    CipherModeMarks(j);
  }

  function CipherModeArm(a: string, m: string, algorithm: Algorithm, mode: Mode): (i: nat)
    ensures i < |CIPHER_MODES| && CIPHER_MODES[i].1 == (algorithm, mode)
  {
    match (algorithm, mode)
    case (Aes, Cbc) => (if a == "aes" then 0 else 2) + (if m == "" then 0 else 1)
    case (Aes, Cfb) => if a == "aes" then 4 else 5
    case (Aes, Ecb) => if a == "aes" then 6 else 7
    case (Blowfish, Cbc) => (if a == "bf" then 8 else 10) + (if m == "" then 0 else 1)
    case (Blowfish, Cfb) => if a == "bf" then 12 else 13
    case (Blowfish, Ecb) => if a == "bf" then 14 else 15
  }

  lemma CipherModeIsArm(a: string, m: string, algorithm: Algorithm, mode: Mode)
    requires NamesAlgorithm(a, algorithm) && NamesMode(m, mode)
    ensures CIPHER_MODES[CipherModeArm(a, m, algorithm, mode)].0 == a + m
    ensures '/' !in a + m
  {
    Concatenations();
    if mode == Cbc && m == "" {
      assert a + m == a;
    }
  }

  lemma CipherModeSpelled(a: string, m: string, algorithm: Algorithm, mode: Mode)
    requires NamesAlgorithm(a, algorithm) && NamesMode(m, mode)
    ensures ParseCipherMode(a + m) == Some((algorithm, mode))
    ensures '/' !in a + m
  {
    CipherModeIsArm(a, m, algorithm, mode);
    var i := CipherModeArm(a, m, algorithm, mode);
    hide NamesAlgorithm, NamesMode, CipherModeArm;
    forall j | 0 <= j < i
      ensures CIPHER_MODES[j].0 != CIPHER_MODES[i].0
    {
      CipherModesAreDistinct(j, i);
    }
    LookupOfArm(CIPHER_MODES, i);
  }

  lemma CipherModeParts(i: nat) returns (a: string, m: string)
    requires i < |CIPHER_MODES|
    ensures var (algorithm, mode) := CIPHER_MODES[i].1;
      NamesAlgorithm(a, algorithm) && NamesMode(m, mode) && CIPHER_MODES[i].0 == a + m
  {
    Concatenations();
    a := if i in {0, 1, 4, 6} then "aes" else if i < 8 then "rijndael"
         else if i in {8, 9, 12, 14} then "bf" else "blowfish";
    m := if i in {0, 2, 8, 10} then "" else if i in {1, 3, 9, 11} then "-cbc"
         else if i in {4, 5, 12, 13} then "-cfb" else "-ecb";
  }

  lemma CipherModeSplits(name: string) returns (a: string, m: string)
    requires ParseCipherMode(name).Some?
    ensures var (algorithm, mode) := ParseCipherMode(name).value;
      NamesAlgorithm(a, algorithm) && NamesMode(m, mode) && name == a + m
  {
    LookupFindsArm(CIPHER_MODES, name);
    var i :| 0 <= i < |CIPHER_MODES| && CIPHER_MODES[i].0 == name && ParseCipherMode(name) == Some(CIPHER_MODES[i].1);
    a, m := CipherModeParts(i);
  }

  lemma PaddingSpelled(name: string, q: string, padding: Padding)
    requires '/' !in name && NamesPadding(q, padding)
    ensures SplitType(name + q) == Some((name, padding))
  {
    if q == "" {
      assert name + q == name;
    } else {
      var right := if padding == Pkcs then "pad:pkcs" else "pad:none";
      assert q == ['/'] + right;
      assert name + q == name + ['/'] + right;
      SplitOnceAt(name, '/', right);
    }
  }

  lemma PaddingSplits(normalized: string) returns (q: string)
    requires SplitType(normalized).Some?
    ensures var (name, padding) := SplitType(normalized).value;
      NamesPadding(q, padding) && normalized == name + q
  {
    match SplitOnce(normalized, '/')
    case None =>
      q := "";
      assert normalized == normalized + q;
    case Some((left, right)) =>
      q := ['/'] + right;
      assert normalized == left + q;
      PaddingSuffix(right);
  }

  lemma PaddingSuffix(right: string)
    requires ParsePadding(right).Some?
    ensures NamesPadding(['/'] + right, ParsePadding(right).value)
  {
    assert ['/'] + "pad:pkcs" == "/pad:pkcs";
    assert ['/'] + "pad:none" == "/pad:none";
  }

  /** A type string denotes a cipher type exactly when, letter case apart, it spells it. */
  lemma ParseTypeIffSpells(s: string, t: CipherType)
    ensures ParseType(s) == Some(t) <==> Spells(ToAsciiLowercase(s), t)
  {
    hide ParseCipherMode, NamesAlgorithm, NamesMode, NamesPadding, SplitType;
    var normalized := ToAsciiLowercase(s);
    if ParseType(s) == Some(t) {
      var q := PaddingSplits(normalized);
      var a, m := CipherModeSplits(SplitType(normalized).value.0);
    }
    if Spells(normalized, t) {
      var a: string, m: string, q: string :|
        && NamesAlgorithm(a, t.algorithm) && NamesMode(m, t.mode) && NamesPadding(q, t.padding)
        && normalized == a + m + q;
      CipherModeSpelled(a, m, t.algorithm, t.mode);
      PaddingSpelled(a + m, q, t.padding);
    }
  }

  /** Two type strings that spell the same type may be exchanged: aliases and letter case do not matter. */
  lemma AliasesAgree(p: Primitives, data: seq<byte>, key: seq<byte>, iv: seq<byte>, s: string, s': string,
                     t: CipherType, decrypting: bool)
    requires p.Lawful()
    requires Spells(ToAsciiLowercase(s), t) && Spells(ToAsciiLowercase(s'), t)
    requires !decrypting ==> EncryptableAs(s, data)
    ensures !decrypting ==> EncryptableAs(s', data)
    ensures Transform(p, data, key, iv, s, decrypting) == Transform(p, data, key, iv, s', decrypting)
  {
    ParseTypeIffSpells(s, t);
    ParseTypeIffSpells(s', t);
  }
}
