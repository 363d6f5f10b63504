/**
  The raw cipher layer: the cipher-type string, the normalisation of key and IV, and the dispatch on
  algorithm, mode, padding and direction. The two block ciphers themselves are parameters.
 */
module RawCipher {
  import opened Bytes
  import opened CipherModes
  import opened Pkcs7
  import opened RustText
  import opened Wrappers

  datatype Algorithm = Aes | Blowfish
  datatype Mode = Cbc | Cfb | Ecb
  datatype Padding = Pkcs | NoPadding
  datatype CipherType = CipherType(algorithm: Algorithm, mode: Mode, padding: Padding)

  /** The library's block ciphers, each a family indexed by the key. */
  datatype Primitives = Primitives(aes: seq<byte> -> BlockCipher, blowfish: seq<byte> -> BlockCipher) {
    ghost predicate Lawful() {
      && (forall key {:trigger aes(key)} | |key| in {16, 24, 32} :: aes(key).Valid() && aes(key).size == 16)
      && (forall key {:trigger blowfish(key)} | 4 <= |key| <= 56 ::
            blowfish(key).Valid() && blowfish(key).size == 8)
    }
  }

  // ---------- The cipher-type string ----------

  function ParsePadding(right: string): Option<Padding> {
    if right == "pad:pkcs" then Some(Pkcs)
    else if right == "pad:none" then Some(NoPadding)
    else None
  }

  const CIPHER_MODES: seq<(string, (Algorithm, Mode))> := [
    ("aes", (Aes, Cbc)), ("aes-cbc", (Aes, Cbc)), ("rijndael", (Aes, Cbc)), ("rijndael-cbc", (Aes, Cbc)),
    ("aes-cfb", (Aes, Cfb)), ("rijndael-cfb", (Aes, Cfb)),
    ("aes-ecb", (Aes, Ecb)), ("rijndael-ecb", (Aes, Ecb)),
    ("bf", (Blowfish, Cbc)), ("bf-cbc", (Blowfish, Cbc)),
    ("blowfish", (Blowfish, Cbc)), ("blowfish-cbc", (Blowfish, Cbc)),
    ("bf-cfb", (Blowfish, Cfb)), ("blowfish-cfb", (Blowfish, Cfb)),
    ("bf-ecb", (Blowfish, Ecb)), ("blowfish-ecb", (Blowfish, Ecb))]

  function ParseCipherMode(name: string): Option<(Algorithm, Mode)> {
    Lookup(CIPHER_MODES, name)
  }

  /** The part that names algorithm and mode, and the padding, which is PKCS unless the string says otherwise. */
  function SplitType(normalized: string): Option<(string, Padding)> {
    match SplitOnce(normalized, '/')
    case None => Some((normalized, Pkcs))
    case Some((left, right)) =>
      var padding :- ParsePadding(right);
      Some((left, padding))
  }

  function ParseType(cipherType: string): Option<CipherType> {
    var (cipherMode, padding) :- SplitType(ToAsciiLowercase(cipherType));
    var (algorithm, mode) :- ParseCipherMode(cipherMode);
    Some(CipherType(algorithm, mode, padding))
  }

  // ---------- Key and IV ----------

  /** Cut to n octets, or filled up with zeros. */
  function Fixed(n: nat, input: seq<byte>): (r: seq<byte>)
    ensures |r| == n
    ensures forall i | 0 <= i < n :: r[i] == if i < |input| then input[i] else 0
  {
    if |input| >= n then input[..n] else input + Zeros(n - |input|)
  }

  method FixedArray(n: nat, input: seq<byte>) returns (output: array<byte>)
    ensures fresh(output) && output[..] == Fixed(n, input)
  {
    output := new byte[n](_ => 0);
    var count := if |input| < n then |input| else n;
    for i := 0 to count
      invariant forall j | 0 <= j < n :: output[j] == if j < i then input[j] else 0
    {
      output[i] := input[i];
    }
  }

  function AesTier(length: nat): Option<nat> {
    if length <= 16 then Some(16)
    else if length <= 24 then Some(24)
    else if length <= 32 then Some(32)
    else None
  }

  function AesKey(key: seq<byte>): Option<seq<byte>> {
    var tier :- AesTier(|key|);
    Some(Fixed(tier, key))
  }

  function Repeated(s: seq<byte>, times: nat): seq<byte>
    requires 1 <= times <= 4
  {
    match times
    case 1 => s
    case 2 => s + s
    case 3 => s + s + s
    case 4 => s + s + s + s
  }

  /** Cut to 56 octets; fewer than four are repeated whole until there are at least four. */
  function BlowfishKey(key: seq<byte>): (r: seq<byte>)
    ensures if key == [] then r == [] else 4 <= |r| <= 56
  {
    var cut := key[..if |key| < 56 then |key| else 56];
    Repeated(cut, if |cut| == 1 then 4 else if |cut| == 2 || |cut| == 3 then 2 else 1)
  }

  method BuildBlowfishKey(key: seq<byte>) returns (output: seq<byte>)
    ensures output == BlowfishKey(key)
  {
    output := key[..if |key| < 56 then |key| else 56];
    if output != [] && |output| < 4 {
      var original := output;
      ghost var times := 1;
      while |output| < 4
        invariant 1 <= times <= if |original| == 1 then 4 else 2
        invariant output == Repeated(original, times)
      {
        output := output + original;
        times := times + 1;
      }
    }
  }

  // ---------- One direction of one cipher ----------

  /** Without padding, encryption is only defined on whole blocks; CFB is defined everywhere. */
  predicate Encryptable(n: nat, mode: Mode, padding: Padding, data: seq<byte>)
    requires IsBlockSize(n)
  {
    mode == Cfb || padding == Pkcs || Aligned(n, data)
  }

  function EncryptWith(c: BlockCipher, iv: seq<byte>, mode: Mode, padding: Padding, data: seq<byte>): seq<byte>
    requires c.Valid() && |iv| == c.size
    requires Encryptable(c.size, mode, padding, data)
  {
    match mode
    case Cbc => CbcEncrypt(c, iv, if padding == Pkcs then Pad(c.size, data) else data)
    case Ecb => EcbEncrypt(c, if padding == Pkcs then Pad(c.size, data) else data)
    case Cfb => CfbEncrypt(c, iv, data)
  }

  function DecryptWith(c: BlockCipher, iv: seq<byte>, mode: Mode, padding: Padding, data: seq<byte>): Option<seq<byte>>
    requires c.Valid() && |iv| == c.size
  {
    if mode == Cfb then Some(CfbDecrypt(c, iv, data))
    else if !Aligned(c.size, data) then None
    else
      var plain := if mode == Cbc then CbcDecrypt(c, iv, data) else EcbDecrypt(c, data);
      if padding == Pkcs then Unpad(c.size, plain) else Some(plain)
  }

  /** The keyed cipher that the algorithm and the key select; a key it cannot use is an error. */
  function Keyed(p: Primitives, algorithm: Algorithm, key: seq<byte>): (r: Option<BlockCipher>)
    requires p.Lawful()
    ensures r.Some? ==> r.value.Valid() && r.value.size == BlockSize(algorithm)
    ensures r.Some? <==> UsableKey(algorithm, key)
  {
    match algorithm
    case Aes =>
      var normalized :- AesKey(key);
      Some(p.aes(normalized))
    case Blowfish =>
      var normalized := BlowfishKey(key);
      if 4 <= |normalized| <= 56 then Some(p.blowfish(normalized)) else None
  }

  predicate UsableKey(algorithm: Algorithm, key: seq<byte>) {
    if algorithm == Aes then |key| <= 32 else key != []
  }

  function BlockSize(algorithm: Algorithm): (n: nat)
    ensures IsBlockSize(n)
  {
    if algorithm == Aes then 16 else 8
  }

  // ---------- The entry points ----------

  predicate EncryptableAs(cipherType: string, data: seq<byte>) {
    var t := ParseType(cipherType);
    t.Some? ==> Encryptable(BlockSize(t.value.algorithm), t.value.mode, t.value.padding, data)
  }

  function Transform(p: Primitives, data: seq<byte>, key: seq<byte>, iv: seq<byte>, cipherType: string,
                     decrypting: bool): Option<seq<byte>>
    requires p.Lawful()
    requires !decrypting ==> EncryptableAs(cipherType, data)
  {
    var t :- ParseType(cipherType);
    var c :- Keyed(p, t.algorithm, key);
    var fixedIv := Fixed(c.size, iv);
    if decrypting then DecryptWith(c, fixedIv, t.mode, t.padding, data)
    else Some(EncryptWith(c, fixedIv, t.mode, t.padding, data))
  }

  function Encrypt(p: Primitives, data: seq<byte>, key: seq<byte>, cipherType: string): Option<seq<byte>>
    requires p.Lawful() && EncryptableAs(cipherType, data)
  {
    Transform(p, data, key, [], cipherType, false)
  }

  function Decrypt(p: Primitives, data: seq<byte>, key: seq<byte>, cipherType: string): Option<seq<byte>>
    requires p.Lawful()
  {
    Transform(p, data, key, [], cipherType, true)
  }

  function EncryptIv(p: Primitives, data: seq<byte>, key: seq<byte>, iv: seq<byte>, cipherType: string)
    : Option<seq<byte>>
    requires p.Lawful() && EncryptableAs(cipherType, data)
  {
    Transform(p, data, key, iv, cipherType, false)
  }

  function DecryptIv(p: Primitives, data: seq<byte>, key: seq<byte>, iv: seq<byte>, cipherType: string)
    : Option<seq<byte>>
    requires p.Lawful()
  {
    Transform(p, data, key, iv, cipherType, true)
  }

  // ---------- The same on buffers ----------

  /** A fresh array that holds the given octets. */
  method Copied(data: seq<byte>) returns (buffer: array<byte>)
    ensures fresh(buffer) && buffer[..] == data
  {
    buffer := new byte[|data|](i requires 0 <= i < |data| => data[i]);
  }

  /** A cipher under its key, in place on a copy of the data, which CBC and ECB pad before and unpad after. */
  method RunCipher(c: BlockCipher, iv: seq<byte>, mode: Mode, padding: Padding, data: seq<byte>, decrypting: bool)
    returns (r: Option<seq<byte>>)
    requires c.Valid() && |iv| == c.size
    requires !decrypting ==> Encryptable(c.size, mode, padding, data)
    ensures r == if decrypting then DecryptWith(c, iv, mode, padding, data)
                 else Some(EncryptWith(c, iv, mode, padding, data))
  {
    if decrypting && mode != Cfb && !Aligned(c.size, data) {
      return None;
    }
    var padded := !decrypting && mode != Cfb && padding == Pkcs;
    var output := Copied(if padded then Pad(c.size, data) else data);
    match mode {
      case Cbc => if decrypting { CbcDecryptInPlace(c, iv, output); } else { CbcEncryptInPlace(c, iv, output); }
      case Ecb => if decrypting { EcbDecryptInPlace(c, output); } else { EcbEncryptInPlace(c, output); }
      case Cfb => if decrypting { CfbDecryptInPlace(c, iv, output); } else { CfbEncryptInPlace(c, iv, output); }
    }
    if decrypting && mode != Cfb && padding == Pkcs {
      return Unpad(c.size, output[..]);
    }
    return Some(output[..]);
  }

  method RunTransform(p: Primitives, data: seq<byte>, key: seq<byte>, iv: seq<byte>, cipherType: string,
                      decrypting: bool) returns (r: Option<seq<byte>>)
    requires p.Lawful()
    requires !decrypting ==> EncryptableAs(cipherType, data)
    ensures r == Transform(p, data, key, iv, cipherType, decrypting)
  {
    var t := ParseType(cipherType);
    if t == None {
      return None;
    }
    var fixedIv := FixedArray(BlockSize(t.value.algorithm), iv);
    var normalized: seq<byte>;
    if t.value.algorithm == Aes {
      var tier := AesTier(|key|);
      if tier == None {
        return None;
      }
      var fixedKey := FixedArray(tier.value, key);
      normalized := fixedKey[..];
    } else {
      normalized := BuildBlowfishKey(key);
      if !(4 <= |normalized| <= 56) {
        return None;
      }
    }
    var c := if t.value.algorithm == Aes then p.aes(normalized) else p.blowfish(normalized);
    r := RunCipher(c, fixedIv[..], t.value.mode, t.value.padding, data, decrypting);
  }
}
