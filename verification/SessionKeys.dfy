/**
  String-to-key specifiers and the symmetric-key encrypted session key packet: sections 3.7 and 5.3 of
  RFC 4880. Key derivation and the block ciphers are parameters.
 */
module SessionKeys {
  import opened Bytes
  import opened CipherModes
  import opened OpenPgpTypes
  import opened PgpOptions
  import opened Wrappers

  // ---------- Iteration counts ----------

  function Power2(n: nat): (r: nat)
    ensures r > 0
  {
    if n == 0 then 1 else 2 * Power2(n - 1)
  }

  /** Section 3.7.1.3: the number of octets hashed that a count octet stands for. */
  function DecodedCount(code: nat): nat {
    (16 + code % 16) * Power2(code / 16 + 6)
  }

  /** `code` is the count octet directly below or directly above the requested count. */
  ghost predicate IsNeighbour(code: nat, count: nat) {
    && code < 256
    && (|| DecodedCount(code) == count
        || (DecodedCount(code) < count && (code < 255 ==> count < DecodedCount(code + 1)))
        || (count < DecodedCount(code) && (code > 0 ==> DecodedCount(code - 1) < count)))
  }

  // ---------- Specifiers ----------

  datatype S2k =
    | Simple(hash: HashAlgorithm)
    | Salted(hash: HashAlgorithm, salt: seq<byte>)
    | Iterated(hash: HashAlgorithm, salt: seq<byte>, code: nat)

  datatype KeyLibrary = KeyLibrary(
    blockCipher: (SymmetricAlgorithm, seq<byte>) -> BlockCipher,
    deriveKey: (S2k, seq<byte>, nat) -> seq<byte>,
    countCode: nat -> nat)
  {
    ghost predicate Lawful() {
      && (forall algorithm, key {:trigger blockCipher(algorithm, key)} | KeySize(algorithm) == Some(|key|) ::
            blockCipher(algorithm, key).Forward() && BlockSize(algorithm) == Some(blockCipher(algorithm, key).size))
      && (forall s2k, password, n :: |deriveKey(s2k, password, n)| == n)
      && (forall count | MIN_COUNT <= count <= MAX_COUNT :: IsNeighbour(countCode(count), count))
    }
  }

  /** What one encryption draws from the random number generator. */
  datatype Draws = Draws(salt: seq<byte>, countOctets: seq<byte>, sessionKey: nat -> seq<byte>) {
    ghost predicate Valid() {
      |salt| == 8 && |countOctets| == 4 && forall n :: |sessionKey(n)| == n
    }
  }

  function LittleEndian(octets: seq<byte>): nat {
    if octets == [] then 0 else (octets[0] as nat) + 256 * LittleEndian(octets[1..])
  }

  const MIN_DEFAULT_COUNT := 65536
  const MAX_DEFAULT_COUNT := 253952

  function DefaultCount(octets: seq<byte>): (count: nat)
    ensures MIN_DEFAULT_COUNT <= count <= MAX_DEFAULT_COUNT
  {
    MIN_DEFAULT_COUNT + LittleEndian(octets) % (MAX_DEFAULT_COUNT - MIN_DEFAULT_COUNT + 1)
  }

  function RequestedCount(options: EncryptOptions, draws: Draws): nat {
    match options.s2kCount
    case Some(count) => count
    case None => DefaultCount(draws.countOctets)
  }

  /** The last arm is the one that the source marks as unreachable. */
  function MakeS2k(lib: KeyLibrary, options: EncryptOptions, draws: Draws): Option<S2k> {
    if options.s2kMode == 0 then Some(Simple(options.s2kDigest))
    else if options.s2kMode == 1 then Some(Salted(options.s2kDigest, draws.salt))
    else if options.s2kMode == 3 then
      var count := RequestedCount(options, draws);
      if count > MAX_COUNT then None else Some(Iterated(options.s2kDigest, draws.salt, lib.countCode(count)))
    else None
  }

  // ---------- The session key packet ----------

  datatype Skesk = Skesk(cipher: SymmetricAlgorithm, s2k: S2k, esk: Option<seq<byte>>)

  /** An algorithm, when the packet says one, and a session key. */
  datatype Candidate = Candidate(algorithm: Option<SymmetricAlgorithm>, key: seq<byte>)

  /** The algorithm octet and the session key, in CFB mode under the derived key and an IV of zeros. */
  function SkeskWithPassword(lib: KeyLibrary, payload: SymmetricAlgorithm, eskCipher: SymmetricAlgorithm, s2k: S2k,
                             sessionKey: seq<byte>, password: seq<byte>): Option<Skesk>
    requires lib.Lawful()
  {
    var size :- KeySize(payload);
    var kekSize :- KeySize(eskCipher);
    if |sessionKey| != size then None
    else
      var c := lib.blockCipher(eskCipher, lib.deriveKey(s2k, password, kekSize));
      var esk := CfbEncrypt(c, Zeros(c.size), [AlgorithmOctet(payload)] + sessionKey);
      Some(Skesk(eskCipher, s2k, Some(esk)))
  }

  function DecryptSkesk(lib: KeyLibrary, skesk: Skesk, password: seq<byte>): Option<Candidate>
    requires lib.Lawful()
  {
    var size :- KeySize(skesk.cipher);
    var key := lib.deriveKey(skesk.s2k, password, size);
    match skesk.esk
    case None => Some(Candidate(Some(skesk.cipher), key))
    case Some(esk) =>
      if esk == [] then None
      else
        var c := lib.blockCipher(skesk.cipher, key);
        var plain := CfbDecrypt(c, Zeros(c.size), esk);
        Some(Candidate(Some(AlgorithmOfOctet(plain[0])), plain[1..]))
  }
}
