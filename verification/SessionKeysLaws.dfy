/** What the session key packet recovers, and which iteration counts are ever asked for. */
module SessionKeysLaws {
  import opened Bytes
  import opened CipherModes
  import opened OpenPgpTypes
  import opened PgpOptions
  import opened PgpOptionsLaws
  import opened SessionKeys
  import opened Wrappers

  // ---------- Iteration counts ----------

  lemma DecodedCountStep(code: nat)
    ensures DecodedCount(code) < DecodedCount(code + 1)
    ensures 16 * (DecodedCount(code + 1) - DecodedCount(code)) <= DecodedCount(code)
  {
    var m, power := code % 16, Power2(code / 16 + 6);
    if m < 15 {
      assert (code + 1) % 16 == m + 1 && (code + 1) / 16 == code / 16;
      assert DecodedCount(code + 1) == DecodedCount(code) + power;
    } else {
      assert (code + 1) % 16 == 0 && (code + 1) / 16 == code / 16 + 1;
      assert DecodedCount(code) == 31 * power && DecodedCount(code + 1) == 32 * power;
    }
  }

  lemma DecodedCountEnds()
    ensures DecodedCount(0) == MIN_COUNT
    ensures DecodedCount(255) == MAX_COUNT
  {
    assert Power2(6) == 64;
    assert Power2(9) == 512;
    assert Power2(12) == 4096;
    assert Power2(15) == 32768;
    assert Power2(18) == 262144;
    assert Power2(21) == 2097152;
  }

  /** Whatever neighbouring octet is chosen, the count is kept up to one sixteenth. */
  lemma NeighbourIsClose(code: nat, count: nat)
    requires IsNeighbour(code, count) && MIN_COUNT <= count <= MAX_COUNT
    ensures 16 * (DecodedCount(code) - count) <= count
    ensures 16 * (count - DecodedCount(code)) <= count
  {
    DecodedCountEnds();
    DecodedCountStep(code);
    if code > 0 {
      DecodedCountStep(code - 1);
    }
  }

  /** Every count in range has an octet below or equal to it whose successor is above it. */
  lemma {:induction false} EveryCountHasNeighbour(count: nat, from: nat) returns (code: nat)
    requires MIN_COUNT <= count <= MAX_COUNT
    requires from < 256 && DecodedCount(from) <= count
    ensures IsNeighbour(code, count) && DecodedCount(code) <= count
    decreases 256 - from
  {
    DecodedCountEnds();
    if from == 255 || count < DecodedCount(from + 1) {
      code := from;
    } else {
      code := EveryCountHasNeighbour(count, from + 1);
    }
  }

  /**
    Accepted options always give a specifier, of the mode they name; in mode 3 the coded count is within one
    sixteenth of the given count, or of the default drawn between 65536 and 253952.
   */
  lemma AcceptedOptionsGiveS2k(lib: KeyLibrary, options: string, textInput: bool, draws: Draws)
    requires lib.Lawful() && draws.Valid()
    requires ParseOptions(options, textInput).Some?
    ensures var o := ParseOptions(options, textInput).value;
      && MakeS2k(lib, o, draws).Some?
      && var s2k := MakeS2k(lib, o, draws).value;
      && s2k.hash == o.s2kDigest
      && (s2k.Simple? <==> o.s2kMode == 0)
      && (s2k.Salted? <==> o.s2kMode == 1)
      && (!s2k.Simple? ==> |s2k.salt| == 8)
      && (s2k.Iterated? ==>
            var count, coded := RequestedCount(o, draws), DecodedCount(s2k.code);
            && MIN_COUNT <= count <= MAX_COUNT
            && (o.s2kCount == None ==> MIN_DEFAULT_COUNT <= count <= MAX_DEFAULT_COUNT)
            && (o.s2kCount.Some? ==> count == o.s2kCount.value)
            && s2k.code < 256 && MIN_COUNT <= coded <= MAX_COUNT
            && 16 * (coded - count) <= count && 16 * (count - coded) <= count)
  {
    hide ParseOptions, DecodedCount;
    AcceptedIsWithinLimits(options, textInput);
    var o := ParseOptions(options, textInput).value;
    var s2k := MakeS2k(lib, o, draws).value;
    if s2k.Iterated? {
      NeighbourIsClose(s2k.code, RequestedCount(o, draws));
      CodeIsInRange(s2k.code);
    }
  }

  lemma {:induction false} CodeIsInRange(code: nat)
    requires code < 256
    ensures MIN_COUNT <= DecodedCount(code) <= MAX_COUNT
  {
    CountsAscend(0, code);
    CountsAscend(code, 255);
    DecodedCountEnds();
  }

  lemma {:induction false} CountsAscend(low: nat, high: nat)
    requires low <= high
    ensures DecodedCount(low) <= DecodedCount(high)
    decreases high - low
  {
    if low < high {
      DecodedCountStep(low);
      CountsAscend(low + 1, high);
    }
  }

  // ---------- The specifier ----------

  /** The specifier of the options' mode, with their digest, the drawn salt, and the given or drawn count encoded. */
  ghost predicate IsSpecifier(lib: KeyLibrary, o: EncryptOptions, draws: Draws, s2k: S2k)
    requires draws.Valid()
  {
    match o.s2kMode
    case 0 => s2k == Simple(o.s2kDigest)
    case 1 => s2k == Salted(o.s2kDigest, draws.salt)
    case _ =>
      exists count ::
        && s2k == Iterated(o.s2kDigest, draws.salt, lib.countCode(count))
        && match o.s2kCount
           case Some(given) => count == given
           case None => count as int == DrawnCount(draws.countOctets)
  }

  /** 65536 plus the four octets, the lowest first, modulo the 188417 counts up to 253952. */
  function DrawnCount(octets: seq<byte>): int
    requires |octets| == 4
  {
    var number := octets[0] as int + 0x100 * octets[1] as int + 0x1_0000 * octets[2] as int
                  + 0x100_0000 * octets[3] as int;
    65536 + number % 188417
  }

  lemma FourOctets(octets: seq<byte>)
    requires |octets| == 4
    ensures DefaultCount(octets) == DrawnCount(octets)
  {
    var r1, r2, r3 := octets[1..], octets[2..], octets[3..];
    assert r1[1..] == r2 && r2[1..] == r3 && r3[1..] == [];
    assert LittleEndian(r3) == octets[3] as nat;
    assert LittleEndian(r2) == octets[2] as nat + 256 * octets[3] as nat;
    assert LittleEndian(r1) == octets[1] as nat + 256 * LittleEndian(r2);
    assert LittleEndian(octets) == octets[0] as nat + 256 * LittleEndian(r1);
  }

  /** Under options that the parser accepts, there is a specifier, and it is this one. */
  lemma SpecifierIff(lib: KeyLibrary, o: EncryptOptions, draws: Draws, s2k: S2k)
    requires draws.Valid() && WithinLimits(o)
    ensures MakeS2k(lib, o, draws) == Some(s2k) <==> IsSpecifier(lib, o, draws, s2k)
  {
    FourOctets(draws.countOctets);
    hide DefaultCount, DrawnCount, LittleEndian;
  }

  // ---------- The algorithms ----------

  /** Cipher, octet, key size and block size: sections 9.2 and 5.13 of RFC 4880, and the ciphers' own standards. */
  const ALGORITHMS: seq<(SymmetricAlgorithm, byte, nat, nat)> := [
    (TripleDes, 2, 24, 8), (Cast5, 3, 16, 8), (Blowfish, 4, 16, 8),
    (Aes128, 7, 16, 16), (Aes192, 8, 24, 16), (Aes256, 9, 32, 16)]

  lemma AlgorithmRow(i: nat)
    requires i < |ALGORITHMS|
    ensures var (algorithm, octet, keySize, blockSize) := ALGORITHMS[i];
      && AlgorithmOctet(algorithm) == octet && AlgorithmOfOctet(octet) == algorithm
      && KeySize(algorithm) == Some(keySize) && BlockSize(algorithm) == Some(blockSize)
  {
  }

  lemma OtherAlgorithms(octet: byte)
    requires octet !in {2, 3, 4, 7, 8, 9}
    ensures AlgorithmOfOctet(octet) == Unknown(octet) && AlgorithmOctet(Unknown(octet)) == octet
    ensures KeySize(Unknown(octet)) == None && BlockSize(Unknown(octet)) == None
  {
  }

  // ---------- What the packet recovers ----------

  lemma AlgorithmOctetInverts(algorithm: SymmetricAlgorithm)
    requires !algorithm.Unknown?
    ensures AlgorithmOfOctet(AlgorithmOctet(algorithm)) == algorithm
  {
  }

  /** Without an encrypted key, the packet stands for the payload's cipher and key exactly if it names that cipher. */
  lemma DirectModeRecoversIff(lib: KeyLibrary, cipher: SymmetricAlgorithm, s2kCipher: SymmetricAlgorithm, s2k: S2k,
                              password: seq<byte>)
    requires lib.Lawful() && !cipher.Unknown?
    ensures DecryptSkesk(lib, Skesk(s2kCipher, s2k, None), password)
         == Some(Candidate(Some(cipher), lib.deriveKey(s2k, password, KeySize(cipher).value)))
       <==> s2kCipher == cipher
  {
  }

  /** With an encrypted key, the packet can be made for any pair of ciphers, and yields the payload's cipher and key. */
  lemma SessionKeyModeRecovers(lib: KeyLibrary, cipher: SymmetricAlgorithm, s2kCipher: SymmetricAlgorithm, s2k: S2k,
                               sessionKey: seq<byte>, password: seq<byte>)
    requires lib.Lawful() && !cipher.Unknown? && !s2kCipher.Unknown?
    ensures var skesk := SkeskWithPassword(lib, cipher, s2kCipher, s2k, sessionKey, password);
      && (skesk.Some? <==> KeySize(cipher) == Some(|sessionKey|))
      && (skesk.Some? ==>
            && skesk.value.cipher == s2kCipher && skesk.value.s2k == s2k && skesk.value.esk.Some?
            && DecryptSkesk(lib, skesk.value, password) == Some(Candidate(Some(cipher), sessionKey)))
  {
    if KeySize(cipher) == Some(|sessionKey|) {
      var c := lib.blockCipher(s2kCipher, lib.deriveKey(s2k, password, KeySize(s2kCipher).value));
      var plain := [AlgorithmOctet(cipher)] + sessionKey;
      CfbDecryptUndoesEncrypt(c, Zeros(c.size), plain);
      AlgorithmOctetInverts(cipher);
      assert plain[1..] == sessionKey;
    }
  }

  /** The cipher that a packet's octets are enciphered with: the named one, under the key of the password. */
  function PacketCipher(lib: KeyLibrary, skesk: Skesk, password: seq<byte>): BlockCipher
    requires KeySize(skesk.cipher).Some?
  {
    lib.blockCipher(skesk.cipher, lib.deriveKey(skesk.s2k, password, KeySize(skesk.cipher).value))
  }

  /** The candidate of any packet: the derived key itself, or the algorithm and key that encipher to its octets. */
  ghost predicate StandsFor(lib: KeyLibrary, skesk: Skesk, password: seq<byte>, candidate: Candidate)
    requires lib.Lawful()
  {
    && KeySize(skesk.cipher).Some?
    && match skesk.esk
       case None =>
         candidate == Candidate(Some(skesk.cipher), lib.deriveKey(skesk.s2k, password, KeySize(skesk.cipher).value))
       case Some(esk) =>
         exists octet ::
           && candidate.algorithm == Some(AlgorithmOfOctet(octet))
           && var c := PacketCipher(lib, skesk, password);
              c.Forward() && CfbEncrypt(c, Zeros(c.size), [octet] + candidate.key) == esk
  }

  lemma DecryptSkeskIff(lib: KeyLibrary, skesk: Skesk, password: seq<byte>, candidate: Candidate)
    requires lib.Lawful()
    ensures DecryptSkesk(lib, skesk, password) == Some(candidate) <==> StandsFor(lib, skesk, password, candidate)
  {
    hide CfbEncrypt, CfbDecrypt, AlgorithmOfOctet;
    if KeySize(skesk.cipher).Some? && skesk.esk.Some? {
      var c, esk := PacketCipher(lib, skesk, password), skesk.esk.value;
      CfbEncryptUndoesDecrypt(c, Zeros(c.size), esk);
      var plain := CfbDecrypt(c, Zeros(c.size), esk);
      if plain != [] {
        assert plain == [plain[0]] + plain[1..];
      }
      forall octet: byte | CfbEncrypt(c, Zeros(c.size), [octet] + candidate.key) == esk
        ensures plain == [octet] + candidate.key && plain[1..] == candidate.key
      {
        CfbDecryptUndoesEncrypt(c, Zeros(c.size), [octet] + candidate.key);
      }
    }
  }
}
