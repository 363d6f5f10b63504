/** What the raw cipher functions compute, block by block, from the type string, the key and the IV as given. */
module RawCipherMeaning {
  import opened Bytes
  import opened CipherModes
  import opened Pkcs7
  import opened RawCipher
  import opened RawCipherLaws
  import opened RustText
  import opened Wrappers

  // ---------- Key, IV and padding ----------

  /** An AES key is zero filled to the smallest key size; a Blowfish key is cut, or repeated up to four octets. */
  ghost predicate IsPreparedKey(algorithm: Algorithm, key: seq<byte>, k: seq<byte>) {
    match algorithm
    case Aes =>
      && |k| in {16, 24, 32} && |key| <= |k|
      && (|key| <= 16 ==> |k| == 16) && (|key| <= 24 ==> |k| <= 24)
      && forall i | 0 <= i < |k| :: k[i] == if i < |key| then key[i] else 0
    case Blowfish =>
      && key != [] && |k| == BlowfishKeyLength(|key|)
      && forall i | 0 <= i < |k| :: k[i] == key[i % if |key| < 56 then |key| else 56]
  }

  function CipherUnder(p: Primitives, algorithm: Algorithm, k: seq<byte>): BlockCipher {
    if algorithm == Aes then p.aes(k) else p.blowfish(k)
  }

  lemma AesKeyIff(key: seq<byte>, k: seq<byte>)
    ensures AesKey(key) == Some(k) <==> IsPreparedKey(Aes, key, k)
  {
    if |key| <= 32 {
      var made := AesKey(key).value;
      assert IsPreparedKey(Aes, key, made);
      if IsPreparedKey(Aes, key, k) {
        assert |k| == |made|;
        assert forall i | 0 <= i < |k| :: k[i] == made[i];
        assert k == made;
      }
    }
  }

  lemma BlowfishKeyAt(key: seq<byte>, i: nat)
    requires key != [] && i < |BlowfishKey(key)|
    ensures BlowfishKey(key)[i] == key[i % if |key| < 56 then |key| else 56]
  {
    BlowfishKeyStream(key, 56);
    hide BlowfishKey;
    SmallModulo(i, |BlowfishKey(key)|);
    assert KeyStream(BlowfishKey(key), 56)[i] == BlowfishKey(key)[i];
    assert KeyStream(BlowfishCut(key), 56)[i] == BlowfishCut(key)[i % |BlowfishCut(key)|];
  }

  lemma BlowfishKeyIff(key: seq<byte>, k: seq<byte>)
    requires key != []
    ensures BlowfishKey(key) == k <==> IsPreparedKey(Blowfish, key, k)
  {
    assert |BlowfishKey(key)| == BlowfishKeyLength(|key|);
    hide BlowfishKey;
    forall i | 0 <= i < |BlowfishKey(key)|
      ensures BlowfishKey(key)[i] == key[i % if |key| < 56 then |key| else 56]
    {
      BlowfishKeyAt(key, i);
    }
    if IsPreparedKey(Blowfish, key, k) {
      assert forall i | 0 <= i < |k| :: k[i] == BlowfishKey(key)[i];
    }
  }

  /** A key is usable exactly when it can be prepared, and the cipher is then keyed with that. */
  lemma KeyedIff(p: Primitives, algorithm: Algorithm, key: seq<byte>, k: seq<byte>)
    requires p.Lawful() && IsPreparedKey(algorithm, key, k)
    ensures Keyed(p, algorithm, key) == Some(CipherUnder(p, algorithm, k))
  {
    if algorithm == Aes {
      AesKeyIff(key, k);
    } else {
      BlowfishKeyIff(key, k);
    }
    hide AesKey, BlowfishKey, IsPreparedKey;
  }

  lemma UsableKeyIsPrepared(algorithm: Algorithm, key: seq<byte>) returns (k: seq<byte>)
    requires UsableKey(algorithm, key)
    ensures IsPreparedKey(algorithm, key, k)
  {
    if algorithm == Aes {
      k := AesKey(key).value;
      AesKeyIff(key, k);
    } else {
      k := BlowfishKey(key);
      BlowfishKeyIff(key, k);
    }
  }

  /** The IV is cut to one block, or zero filled. */
  ghost predicate IsPreparedIv(n: nat, iv: seq<byte>, v: seq<byte>) {
    |v| == n && forall i | 0 <= i < n :: v[i] == if i < |iv| then iv[i] else 0
  }

  lemma IvIff(n: nat, iv: seq<byte>, v: seq<byte>)
    ensures Fixed(n, iv) == v <==> IsPreparedIv(n, iv, v)
  {
  }

  /** What is cut into blocks: the data, with PKCS padding behind it where that applies. */
  ghost predicate IsFilled(n: nat, t: CipherType, data: seq<byte>, x: seq<byte>) {
    if t.mode != Cfb && t.padding == Pkcs then
      && |data| < |x| <= |data| + n && n > 0 && |x| % n == 0
      && x[..|data|] == data
      && forall i | |data| <= i < |x| :: x[i] as int == |x| - |data|
    else x == data
  }

  lemma PaddedIff(n: nat, data: seq<byte>, x: seq<byte>)
    requires IsBlockSize(n)
    ensures Pad(n, data) == x <==> IsFilled(n, CipherType(Aes, Cbc, Pkcs), data, x)
  {
    var made := Pad(n, data);
    assert made[..|data|] == data;
    if IsFilled(n, CipherType(Aes, Cbc, Pkcs), data, x) {
      assert |x| == |made| by {
        OneMultiple(n, |data|, |x|, |made|);
      }
      assert x == x[..|data|] + x[|data|..];
    }
  }

  lemma OneMultiple(n: nat, from: nat, a: nat, b: nat)
    requires IsBlockSize(n) && a % n == 0 && b % n == 0
    requires from < a <= from + n && from < b <= from + n
    ensures a == b
  {
    if n == 8 {
    } else {
    }
  }

  lemma FilledIff(n: nat, t: CipherType, data: seq<byte>, x: seq<byte>)
    requires IsBlockSize(n)
    ensures IsFilled(n, t, data, x) <==> x == if t.mode != Cfb && t.padding == Pkcs then Pad(n, data) else data
  {
    PaddedIff(n, data, x);
    hide Pad;
  }

  // ---------- The modes ----------

  /** What the block before block i left behind: its ciphertext, or the IV. */
  function Before(v: seq<byte>, q: seq<seq<byte>>, i: nat): seq<byte>
    requires i <= |q|
  {
    if i == 0 then v else q[i - 1]
  }

  /** Ciphertext block q[i] of plaintext block p[i], by the equations of NIST SP 800-38A. */
  ghost predicate BlockEnciphered(c: BlockCipher, mode: Mode, v: seq<byte>, p: seq<seq<byte>>, q: seq<seq<byte>>,
                                  i: nat)
    requires c.Valid() && |v| == c.size && i < |p| == |q|
    requires forall j | 0 <= j < |q| :: |p[j]| == |q[j]| <= c.size && (j < |q| - 1 ==> |q[j]| == c.size)
  {
    match mode
    case Cbc => |p[i]| == c.size && q[i] == c.enc(Xor(p[i], Before(v, q, i)))
    case Ecb => q[i] == c.enc(p[i])
    case Cfb => q[i] == Xor(p[i], c.enc(Before(v, q, i))[..|p[i]|])
  }

  /** Plaintext block p[i] of ciphertext block q[i]. */
  ghost predicate BlockDeciphered(c: BlockCipher, mode: Mode, v: seq<byte>, p: seq<seq<byte>>, q: seq<seq<byte>>,
                                  i: nat)
    requires c.Valid() && |v| == c.size && i < |p| == |q|
    requires forall j | 0 <= j < |q| :: |p[j]| == |q[j]| <= c.size && (j < |q| - 1 ==> |q[j]| == c.size)
  {
    match mode
    case Cbc => |q[i]| == c.size && p[i] == Xor(c.dec(q[i]), Chain(v, q, i))
    case Ecb => p[i] == c.dec(q[i])
    case Cfb => p[i] == Xor(q[i], c.enc(Chain(v, q, i))[..|q[i]|])
  }

  /** y is x enciphered block by block. */
  ghost predicate Enciphered(c: BlockCipher, mode: Mode, v: seq<byte>, x: seq<byte>, y: seq<byte>)
    requires c.Valid() && |v| == c.size
  {
    var p, q := Blocks(c.size, x), Blocks(c.size, y);
    && |x| == |y| && |p| == |q| && (forall j | 0 <= j < |p| :: |p[j]| == |q[j]|)
    && forall i | 0 <= i < |p| :: BlockEnciphered(c, mode, v, p, q, i)
  }

  function EncryptBlocks(c: BlockCipher, mode: Mode, v: seq<byte>, x: seq<byte>): (y: seq<byte>)
    requires c.Valid() && |v| == c.size && (mode == Cfb || Aligned(c.size, x))
    ensures |y| == |x|
  {
    match mode
    case Cbc => CbcEncrypt(c, v, x)
    case Ecb => EcbEncrypt(c, x)
    case Cfb => CfbEncrypt(c, v, x)
  }

  function DecryptBlocks(c: BlockCipher, mode: Mode, v: seq<byte>, y: seq<byte>): (x: seq<byte>)
    requires c.Valid() && |v| == c.size && (mode == Cfb || Aligned(c.size, y))
    ensures |y| == |x|
  {
    match mode
    case Cbc => CbcDecrypt(c, v, y)
    case Ecb => EcbDecrypt(c, y)
    case Cfb => CfbDecrypt(c, v, y)
  }

  lemma BlocksInverse(c: BlockCipher, mode: Mode, v: seq<byte>, x: seq<byte>, y: seq<byte>)
    requires c.Valid() && |v| == c.size && (mode == Cfb || (Aligned(c.size, x) && Aligned(c.size, y)))
    ensures EncryptBlocks(c, mode, v, x) == y <==> DecryptBlocks(c, mode, v, y) == x
  {
    match mode
    case Cbc =>
      CbcDecryptUndoesEncrypt(c, v, x);
      CbcEncryptUndoesDecrypt(c, v, y);
    case Ecb =>
      EcbInverse(c, x);
      EcbInverse(c, y);
    case Cfb =>
      CfbDecryptUndoesEncrypt(c, v, x);
      CfbEncryptUndoesDecrypt(c, v, y);
  }

  /** Solving the equation of one block for the plaintext. */
  lemma SolveBlock(c: BlockCipher, mode: Mode, v: seq<byte>, p: seq<seq<byte>>, q: seq<seq<byte>>, i: nat)
    requires c.Valid() && |v| == c.size && i < |p| == |q|
    requires forall j | 0 <= j < |q| :: |p[j]| == |q[j]| <= c.size && (j < |q| - 1 ==> |q[j]| == c.size)
    requires mode != Cfb ==> |p[i]| == c.size
    ensures BlockEnciphered(c, mode, v, p, q, i) <==> BlockDeciphered(c, mode, v, p, q, i)
  {
    hide Xor;
    var before := Before(v, q, i);
    match mode
    case Cbc =>
      XorCancels(p[i], before);
      XorCancels(c.dec(q[i]), before);
      assert c.enc(c.dec(q[i])) == q[i];
      assert c.dec(c.enc(Xor(p[i], before))) == Xor(p[i], before);
    case Ecb =>
      assert c.enc(c.dec(q[i])) == q[i] && c.dec(c.enc(p[i])) == p[i];
    case Cfb =>
      var mask := c.enc(before)[..|p[i]|];
      XorCancels(p[i], mask);
      XorCancels(q[i], mask);
  }

  lemma DecryptedBlocks(c: BlockCipher, mode: Mode, v: seq<byte>, y: seq<byte>)
    requires c.Valid() && |v| == c.size && (mode == Cfb || Aligned(c.size, y))
    ensures var p, q := Blocks(c.size, DecryptBlocks(c, mode, v, y)), Blocks(c.size, y);
      && |p| == |q| && (forall j | 0 <= j < |q| :: |p[j]| == |q[j]|)
      && forall i | 0 <= i < |q| :: BlockDeciphered(c, mode, v, p, q, i)
  {
    hide Xor, Chain, Blocks, CbcDecrypt, EcbDecrypt, CfbDecrypt;
    BlocksOfEqualLengths(c.size, DecryptBlocks(c, mode, v, y), y);
    match mode
    case Cbc => CbcDecryptBlocks(c, v, y);
    case Ecb => EcbDecryptBlocks(c, y);
    case Cfb => CfbDecryptBlocks(c, v, y);
  }

  /** The equations of all blocks have one solution, which is what the modes compute. */
  lemma EncipheredIff(c: BlockCipher, mode: Mode, v: seq<byte>, x: seq<byte>, y: seq<byte>)
    requires c.Valid() && |v| == c.size && (mode == Cfb || Aligned(c.size, x))
    ensures EncryptBlocks(c, mode, v, x) == y <==> Enciphered(c, mode, v, x, y)
  {
    hide Xor, Chain, Before, Blocks, EncryptBlocks, DecryptBlocks, BlockEnciphered;
    if |x| == |y| {
      BlocksOfEqualLengths(c.size, x, y);
      BlocksInverse(c, mode, v, x, y);
      DecryptedBlocks(c, mode, v, y);
      var p, q, r := Blocks(c.size, x), Blocks(c.size, y), Blocks(c.size, DecryptBlocks(c, mode, v, y));
      forall i | 0 <= i < |p|
        ensures BlockEnciphered(c, mode, v, p, q, i) <==> p[i] == r[i]
      {
        SolveBlock(c, mode, v, p, q, i);
        assert BlockDeciphered(c, mode, v, r, q, i);
        if mode != Cfb {
          assert |p[i]| == c.size;
        }
      }
      if forall i | 0 <= i < |p| :: p[i] == r[i] {
        assert p == r;
        BlocksDetermine(c.size, x, DecryptBlocks(c, mode, v, y));
      }
    }
  }

  // ---------- The entry points ----------

  /** y is the data encrypted as the type says: in its mode and padding, under its cipher keyed with the key. */
  ghost predicate IsEncryption(p: Primitives, t: CipherType, key: seq<byte>, iv: seq<byte>, data: seq<byte>,
                               y: seq<byte>)
    requires p.Lawful()
  {
    exists k, v, x ::
      && IsPreparedKey(t.algorithm, key, k)
      && var c := CipherUnder(p, t.algorithm, k);
         && IsPreparedIv(c.size, iv, v) && IsFilled(c.size, t, data, x)
         && c.Valid() && Enciphered(c, t.mode, v, x, y)
  }

  lemma EncryptWithIff(c: BlockCipher, iv: seq<byte>, t: CipherType, data: seq<byte>, y: seq<byte>)
    requires c.Valid() && Encryptable(c.size, t.mode, t.padding, data)
    ensures EncryptWith(c, Fixed(c.size, iv), t.mode, t.padding, data) == y
       <==> exists v, x :: IsPreparedIv(c.size, iv, v) && IsFilled(c.size, t, data, x) && Enciphered(c, t.mode, v, x, y)
  {
    hide Fixed, Enciphered, IsPreparedIv, IsFilled, Pad;
    var v := Fixed(c.size, iv);
    var x := if t.mode != Cfb && t.padding == Pkcs then Pad(c.size, data) else data;
    IvIff(c.size, iv, v);
    FilledIff(c.size, t, data, x);
    EncipheredIff(c, t.mode, v, x, y);
    forall v', x' | IsPreparedIv(c.size, iv, v') && IsFilled(c.size, t, data, x')
      ensures v' == v && x' == x
    {
      IvIff(c.size, iv, v');
      FilledIff(c.size, t, data, x');
    }
  }

  /** Encryption returns exactly what the equations of the mode, for key, IV and data as given, determine. */
  lemma EncryptIff(p: Primitives, data: seq<byte>, key: seq<byte>, iv: seq<byte>, cipherType: string, t: CipherType,
                   y: seq<byte>)
    requires p.Lawful() && Spells(ToAsciiLowercase(cipherType), t)
    ensures EncryptableAs(cipherType, data) ==>
              (EncryptIv(p, data, key, iv, cipherType) == Some(y) <==> IsEncryption(p, t, key, iv, data, y))
  {
    hide Enciphered, IsPreparedIv, IsFilled, EncryptWith, IsPreparedKey, Spells, ParseType, Keyed, Fixed;
    ParseTypeIffSpells(cipherType, t);
    if EncryptableAs(cipherType, data) && UsableKey(t.algorithm, key) {
      var k := UsableKeyIsPrepared(t.algorithm, key);
      KeyedIff(p, t.algorithm, key, k);
      EncryptWithIff(CipherUnder(p, t.algorithm, k), iv, t, data, y);
    }
    forall k | IsPreparedKey(t.algorithm, key, k)
      ensures Keyed(p, t.algorithm, key) == Some(CipherUnder(p, t.algorithm, k))
    {
      KeyedIff(p, t.algorithm, key, k);
    }
  }

  /** Decryption returns exactly the data whose encryption, by these equations, is the ciphertext. */
  lemma DecryptIff(p: Primitives, text: seq<byte>, key: seq<byte>, iv: seq<byte>, cipherType: string, t: CipherType,
                   data: seq<byte>)
    requires p.Lawful() && Spells(ToAsciiLowercase(cipherType), t)
    ensures DecryptIv(p, text, key, iv, cipherType) == Some(data)
       <==> EncryptableAs(cipherType, data) && IsEncryption(p, t, key, iv, data, text)
  {
    hide IsEncryption, Spells, EncryptableAs, Transform;
    if DecryptIv(p, text, key, iv, cipherType) == Some(data) {
      Converse(p, text, key, iv, cipherType);
    }
    if EncryptableAs(cipherType, data) {
      DecryptIffEncrypt(p, data, text, key, iv, cipherType);
      EncryptIff(p, data, key, iv, cipherType, t, text);
    }
  }

  /** A string that spells no type is an error. */
  lemma UnknownTypeFails(p: Primitives, data: seq<byte>, key: seq<byte>, iv: seq<byte>, cipherType: string)
    requires p.Lawful() && forall t :: !Spells(ToAsciiLowercase(cipherType), t)
    ensures DecryptIv(p, data, key, iv, cipherType) == None
    ensures EncryptableAs(cipherType, data) && EncryptIv(p, data, key, iv, cipherType) == None
  {
    hide Spells;
    if ParseType(cipherType).Some? {
      ParseTypeIffSpells(cipherType, ParseType(cipherType).value);
    }
  }
}
