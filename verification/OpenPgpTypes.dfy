/** The algorithm identifiers of RFC 4880 that the OpenPGP functions choose between. */
module OpenPgpTypes {
  import opened Bytes
  import opened Wrappers

  /** Section 9.2; `Unknown` stands for every identifier that the options cannot select. */
  datatype SymmetricAlgorithm = TripleDes | Cast5 | Blowfish | Aes128 | Aes192 | Aes256 | Unknown(octet: byte)

  /** Section 9.3. */
  datatype CompressionAlgorithm = Uncompressed | Zip | Zlib

  /** Section 9.4. */
  datatype HashAlgorithm = Md5 | Sha1

  /** Section 5.9; `OtherFormat` stands for every format octet but `b`, `t` and `u`. */
  datatype DataFormat = Binary | Text | Unicode | OtherFormat(octet: byte)

  function AlgorithmOctet(algorithm: SymmetricAlgorithm): byte {
    match algorithm
    case TripleDes => 2
    case Cast5 => 3
    case Blowfish => 4
    case Aes128 => 7
    case Aes192 => 8
    case Aes256 => 9
    case Unknown(octet) => octet
  }

  function AlgorithmOfOctet(octet: byte): SymmetricAlgorithm {
    if octet == 2 then TripleDes
    else if octet == 3 then Cast5
    else if octet == 4 then Blowfish
    else if octet == 7 then Aes128
    else if octet == 8 then Aes192
    else if octet == 9 then Aes256
    else Unknown(octet)
  }

  function KeySize(algorithm: SymmetricAlgorithm): Option<nat> {
    match algorithm
    case TripleDes => Some(24)
    case Cast5 => Some(16)
    case Blowfish => Some(16)
    case Aes128 => Some(16)
    case Aes192 => Some(24)
    case Aes256 => Some(32)
    case Unknown(_) => None
  }

  function BlockSize(algorithm: SymmetricAlgorithm): Option<nat> {
    match algorithm
    case TripleDes | Cast5 | Blowfish => Some(8)
    case Aes128 | Aes192 | Aes256 => Some(16)
    case Unknown(_) => None
  }
}
