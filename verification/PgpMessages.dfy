/**
  OpenPGP encryption and decryption, by password and by public key, over abstract packets. Compression, the
  integrity-protected container and the public-key operations are parameters.
 */
module PgpMessages {
  import opened Bytes
  import opened KeyTrials
  import opened OpenPgpTypes
  import opened PgpOptions
  import opened SessionKeys
  import opened Wrappers
  import Crlf
  import Utf8

  datatype Packet =
    | SkeskPacket(skesk: Skesk)
    | PkeskPacket(pkesk: seq<byte>)
    | SealedPacket(body: seq<byte>)
    | CompressedPacket(algorithm: CompressionAlgorithm, body: seq<byte>)
    | LiteralPacket(format: DataFormat, data: seq<byte>)
    | OtherPacket

  datatype Library = Library(
    keys: KeyLibrary,
    compress: (CompressionAlgorithm, nat, seq<Packet>) -> seq<byte>,
    decompress: (CompressionAlgorithm, seq<byte>) -> Option<seq<Packet>>,
    seal: (SymmetricAlgorithm, seq<byte>, seq<Packet>) -> seq<byte>,
    open: (SymmetricAlgorithm, seq<byte>, seq<byte>) -> Option<seq<Packet>>,
    wrap: (seq<byte>, Candidate) -> seq<byte>,
    unwrap: (seq<byte>, seq<byte>) -> Option<Candidate>,
    maxDepth: nat)
  {
    /** Decompression undoes compression, and a container opens with the cipher and key that sealed it. */
    ghost predicate Lawful() {
      && keys.Lawful()
      && maxDepth >= 1
      && (forall algorithm, level, packets {:trigger compress(algorithm, level, packets)}
            | algorithm != Uncompressed && 1 <= level <= 9 ::
            decompress(algorithm, compress(algorithm, level, packets)) == Some(packets))
      && (forall algorithm, key, packets {:trigger seal(algorithm, key, packets)} | KeySize(algorithm) == Some(|key|) ::
            open(algorithm, key, seal(algorithm, key, packets)) == Some(packets))
    }

    /** The key pair gives back every session key that was wrapped for the recipient. */
    ghost predicate Unlocks(pair: seq<byte>, recipient: seq<byte>) {
      forall c :: unwrap(wrap(recipient, c), pair) == Some(c)
    }
  }

  // ---------- Encryption ----------

  function LiteralFormat(options: EncryptOptions): DataFormat {
    match (options.textInput, options.unicodeMode)
    case (false, _) => Binary
    case (true, false) => Text
    case (true, true) => Unicode
  }

  function LiteralBody(options: EncryptOptions, data: seq<byte>): seq<byte> {
    if options.textInput && options.convertCrlf then Crlf.Encode(data) else data
  }

  function WritePayload(lib: Library, data: seq<byte>, options: EncryptOptions): Option<seq<Packet>> {
    var literal := LiteralPacket(LiteralFormat(options), LiteralBody(options, data));
    if options.compression != Uncompressed && options.compressionLevel > 0 then
      if options.compressionLevel > 9 then None
      else Some([CompressedPacket(options.compression,
                                  lib.compress(options.compression, options.compressionLevel, [literal]))])
    else Some([literal])
  }

  function EskCipher(options: EncryptOptions): SymmetricAlgorithm {
    match options.s2kCipher
    case Some(cipher) => cipher
    case None => options.cipher
  }

  /** The session key: drawn, or derived from the password. */
  function SessionKeyOf(lib: Library, draws: Draws, options: EncryptOptions, s2k: S2k, password: seq<byte>)
    : Option<seq<byte>>
  {
    var size :- KeySize(options.cipher);
    Some(if options.useSessionKey then draws.sessionKey(size) else lib.keys.deriveKey(s2k, password, size))
  }

  /** The message for parsed options, from behind the check of the S2K cipher. */
  function Emit(lib: Library, draws: Draws, data: seq<byte>, password: seq<byte>, options: EncryptOptions, s2k: S2k)
    : Option<seq<Packet>>
    requires lib.Lawful()
  {
    var sessionKey :- SessionKeyOf(lib, draws, options, s2k, password);
    var skesk :- if options.useSessionKey
                 then SkeskWithPassword(lib.keys, options.cipher, EskCipher(options), s2k, sessionKey, password)
                 else Some(Skesk(EskCipher(options), s2k, None));
    var payload :- WritePayload(lib, data, options);
    Some([SkeskPacket(skesk), SealedPacket(lib.seal(options.cipher, sessionKey, payload))])
  }

  /** Without a session key of its own, a message must use one cipher for both purposes. */
  predicate CiphersAgree(options: EncryptOptions) {
    options.useSessionKey || EskCipher(options) == options.cipher
  }

  function SymEncrypt(lib: Library, draws: Draws, data: seq<byte>, password: seq<byte>, optionString: string,
                      text: bool): Option<seq<Packet>>
    requires lib.Lawful()
  {
    var options :- ParseOptions(optionString, text);
    var s2k :- MakeS2k(lib.keys, options, draws);
    if !CiphersAgree(options) then None else Emit(lib, draws, data, password, options, s2k)
  }

  /** One session key packet for each recipient. */
  function PkeskPackets(lib: Library, recipients: seq<seq<byte>>, session: Candidate): seq<Packet> {
    if recipients == [] then []
    else [PkeskPacket(lib.wrap(recipients[0], session))] + PkeskPackets(lib, recipients[1..], session)
  }

  /** Encryption for the usable keys of a certificate; the S2K options are parsed and have no effect. */
  function PubEncrypt(lib: Library, draws: Draws, data: seq<byte>, recipients: seq<seq<byte>>, optionString: string,
                      text: bool): Option<seq<Packet>>
  {
    var options :- ParseOptions(optionString, text);
    if recipients == [] then None
    else
      var size :- KeySize(options.cipher);
      var session := Candidate(Some(options.cipher), draws.sessionKey(size));
      var payload :- WritePayload(lib, data, options);
      Some(PkeskPackets(lib, recipients, session) + [SealedPacket(lib.seal(options.cipher, session.key, payload))])
  }

  method RunWritePayload(lib: Library, data: seq<byte>, options: EncryptOptions) returns (r: Option<seq<Packet>>)
    ensures r == WritePayload(lib, data, options)
  {
    var converted := data;
    if options.textInput && options.convertCrlf {
      converted := Crlf.EncodeLoop(data);
    }
    var literal := LiteralPacket(LiteralFormat(options), converted);
    if options.compression == Uncompressed || options.compressionLevel == 0 {
      return Some([literal]);
    }
    if options.compressionLevel > 9 {
      return None;
    }
    var body := lib.compress(options.compression, options.compressionLevel, [literal]);
    return Some([CompressedPacket(options.compression, body)]);
  }

  method RunSymEncrypt(lib: Library, draws: Draws, data: seq<byte>, password: seq<byte>, optionString: string,
                       text: bool)
    returns (message: Option<seq<Packet>>)
    requires lib.Lawful()
    ensures message == SymEncrypt(lib, draws, data, password, optionString, text)
  {
    hide ParseOptions, WritePayload, SkeskWithPassword, MakeS2k;
    var parsed := RunParseOptions(optionString, text);
    if parsed == None {
      return None;
    }
    var options := parsed.value;
    var s2k := MakeS2k(lib.keys, options, draws);
    if s2k == None || !CiphersAgree(options) {
      return None;
    }
    var size := KeySize(options.cipher);
    if size == None {
      return None;
    }
    var sessionKey, skesk;
    if options.useSessionKey {
      sessionKey := draws.sessionKey(size.value);
      skesk := SkeskWithPassword(lib.keys, options.cipher, EskCipher(options), s2k.value, sessionKey, password);
    } else {
      sessionKey := lib.keys.deriveKey(s2k.value, password, size.value);
      skesk := Some(Skesk(EskCipher(options), s2k.value, None));
    }
    if skesk == None {
      return None;
    }
    var payload := RunWritePayload(lib, data, options);
    if payload == None {
      return None;
    }
    return Some([SkeskPacket(skesk.value), SealedPacket(lib.seal(options.cipher, sessionKey, payload.value))]);
  }

  // ---------- The literal format cell ----------

  const LITERAL_UNKNOWN := 0
  const LITERAL_BINARY := 1
  const LITERAL_TEXT := 2
  const LITERAL_UNICODE := 3

  function FormatCode(format: DataFormat): nat {
    match format
    case Binary => LITERAL_BINARY
    case Text => LITERAL_TEXT
    case Unicode => LITERAL_UNICODE
    case OtherFormat(_) => LITERAL_UNKNOWN
  }

  /** What the cell holds after a packet was inspected. */
  function Inspected(cell: nat, packet: Packet): nat {
    if packet.LiteralPacket? then FormatCode(packet.format) else cell
  }

  /** What the cell holds after a list of packets was inspected. */
  function InspectedAll(cell: nat, packets: seq<Packet>): nat
    decreases |packets|
  {
    if packets == [] then cell else InspectedAll(Inspected(cell, packets[0]), packets[1..])
  }

  /** The cell that the caller and the helper share. */
  class FormatCell {
    var value: nat

    constructor ()
      ensures value == LITERAL_UNKNOWN
    {
      value := LITERAL_UNKNOWN;
    }
  }

  method InspectLiteralFormat(packet: Packet, format: FormatCell)
    modifies format
    ensures format.value == Inspected(old(format.value), packet)
  {
    if packet.LiteralPacket? {
      format.value := FormatCode(packet.format);
    }
  }

  // ---------- Decryption ----------

  ghost function SkeskResults(lib: Library, skesks: seq<Skesk>, password: seq<byte>): (r: seq<Option<Candidate>>)
    requires lib.Lawful()
    ensures |r| == |skesks|
  {
    seq(|skesks|, i requires 0 <= i < |skesks| => DecryptSkesk(lib.keys, skesks[i], password))
  }

  /** Whether the container opens with the candidate. */
  function Opens(lib: Library, body: seq<byte>): Candidate -> bool {
    (c: Candidate) => c.algorithm.Some? && lib.open(c.algorithm.value, c.key, body).Some?
  }

  /** Inside the container: the first literal packet, looking into compressed packets. */
  function ReadPayload(lib: Library, packets: seq<Packet>, cell: nat, depth: nat): Option<(seq<byte>, nat)>
    decreases depth, |packets|
  {
    if packets == [] then None
    else
      var after := Inspected(cell, packets[0]);
      match packets[0]
      case LiteralPacket(_, data) => Some((data, after))
      case CompressedPacket(algorithm, body) =>
        if depth == 0 then None
        else
          var inner :- lib.decompress(algorithm, body);
          ReadPayload(lib, inner, after, depth - 1)
      case OtherPacket => ReadPayload(lib, packets[1..], after, depth)
      case _ => None
  }

  /** The payload of a container under the session key that the helper found, if it found one. */
  function OpenContainer(lib: Library, body: seq<byte>, found: Option<Candidate>, cell: nat): Option<(seq<byte>, nat)> {
    var session :- found;
    var algorithm :- session.algorithm;
    var payload :- lib.open(algorithm, session.key, body);
    ReadPayload(lib, payload, cell, lib.maxDepth)
  }

  /** What a message is decrypted with: a password, or the unlocked key pairs of a secret key. */
  datatype Credential = Password(password: seq<byte>) | KeyPairs(pairs: seq<seq<byte>>)

  /** What the session key packets of the message yield, in the order in which the helper tries them. */
  ghost function Results(lib: Library, credential: Credential, skesks: seq<Skesk>, pkesks: seq<seq<byte>>)
    : seq<Option<Candidate>>
    requires lib.Lawful()
  {
    match credential
    case Password(password) => SkeskResults(lib, skesks, password)
    case KeyPairs(pairs) => PairResults(pkesks, pairs, lib.unwrap)
  }

  /** Session key packets are collected up to the container, which the helper then opens. */
  ghost function ReadMessage(lib: Library, message: seq<Packet>, credential: Credential, skesks: seq<Skesk>,
                             pkesks: seq<seq<byte>>, cell: nat): Option<(seq<byte>, nat)>
    requires lib.Lawful()
    decreases |message|
  {
    if message == [] then None
    else
      var after := Inspected(cell, message[0]);
      match message[0]
      case SkeskPacket(skesk) => ReadMessage(lib, message[1..], credential, skesks + [skesk], pkesks, after)
      case PkeskPacket(pkesk) => ReadMessage(lib, message[1..], credential, skesks, pkesks + [pkesk], after)
      case OtherPacket => ReadMessage(lib, message[1..], credential, skesks, pkesks, after)
      case SealedPacket(body) =>
        OpenContainer(lib, body, FirstAccepted(Results(lib, credential, skesks, pkesks), Opens(lib, body)), after)
      case _ => None
  }

  ghost function SymDecrypt(lib: Library, message: seq<Packet>, password: seq<byte>): Option<(seq<byte>, nat)>
    requires lib.Lawful()
  {
    ReadMessage(lib, message, Password(password), [], [], LITERAL_UNKNOWN)
  }

  /** A secret key without usable key pairs is an error. */
  ghost function PubDecrypt(lib: Library, message: seq<Packet>, pairs: seq<seq<byte>>): Option<(seq<byte>, nat)>
    requires lib.Lawful()
  {
    if pairs == [] then None else ReadMessage(lib, message, KeyPairs(pairs), [], [], LITERAL_UNKNOWN)
  }

  function DecryptedText(data: seq<byte>, format: nat, options: DecryptOptions): Option<seq<byte>> {
    if format != LITERAL_TEXT && format != LITERAL_UNICODE then None
    else
      var converted := if options.convertCrlf then Crlf.Decode(data) else data;
      if 0 in converted || !Utf8.Valid(converted) then None else Some(converted)
  }

  class PasswordHelper {
    const password: seq<byte>
    const literalFormat: FormatCell

    constructor (password: seq<byte>, literalFormat: FormatCell)
      ensures this.password == password && this.literalFormat == literalFormat
    {
      this.password := password;
      this.literalFormat := literalFormat;
    }

    method Inspect(packet: Packet)
      modifies literalFormat
      ensures literalFormat.value == Inspected(old(literalFormat.value), packet)
    {
      InspectLiteralFormat(packet, literalFormat);
    }

    /** Tries the session key packets in order; `asked` records the calls of `accepts`. */
    method Decrypt(lib: Library, skesks: seq<Skesk>, accepts: Candidate -> bool)
      returns (found: Option<Candidate>, asked: seq<Candidate>)
      requires lib.Lawful()
      ensures found == FirstAccepted(SkeskResults(lib, skesks, password), accepts)
      ensures asked == Asked(SkeskResults(lib, skesks, password), accepts)
    {
      asked := [];
      ghost var all := SkeskResults(lib, skesks, password);
      for i := 0 to |skesks|
        invariant FirstAccepted(all, accepts) == FirstAccepted(all[i..], accepts)
        invariant Asked(all, accepts) == asked + Asked(all[i..], accepts)
      {
        hide DecryptSkesk;
        assert all[i..][1..] == all[i + 1..];
        var result := DecryptSkesk(lib.keys, skesks[i], password);
        if result.Some? {
          asked := asked + [result.value];
          if accepts(result.value) {
            return result, asked;
          }
        }
      }
      return None, asked;
    }
  }

  class KeyHelper {
    const pairs: seq<seq<byte>>
    const literalFormat: FormatCell

    constructor (pairs: seq<seq<byte>>, literalFormat: FormatCell)
      ensures this.pairs == pairs && this.literalFormat == literalFormat
    {
      this.pairs := pairs;
      this.literalFormat := literalFormat;
    }

    method Inspect(packet: Packet)
      modifies literalFormat
      ensures literalFormat.value == Inspected(old(literalFormat.value), packet)
    {
      InspectLiteralFormat(packet, literalFormat);
    }

    /** Tries every key pair on every packet; `asked` records the calls of `accepts`. */
    method Decrypt(lib: Library, pkesks: seq<seq<byte>>, accepts: Candidate -> bool)
      returns (found: Option<Candidate>, asked: seq<Candidate>)
      ensures found == FirstAccepted(PairResults(pkesks, pairs, lib.unwrap), accepts)
      ensures asked == Asked(PairResults(pkesks, pairs, lib.unwrap), accepts)
    {
      found, asked := TryPairs(pkesks, pairs, lib.unwrap, accepts);
    }
  }

  /** Walks through the payload, every packet on the way being inspected. */
  method RunReadPayload(lib: Library, payload: seq<Packet>, cell: FormatCell) returns (data: Option<seq<byte>>)
    modifies cell
    ensures var read := ReadPayload(lib, payload, old(cell.value), lib.maxDepth);
      if read.None? then data == None else data == Some(read.value.0) && cell.value == read.value.1
  {
    var packets, depth := payload, lib.maxDepth;
    while packets != []
      invariant ReadPayload(lib, payload, old(cell.value), lib.maxDepth) == ReadPayload(lib, packets, cell.value, depth)
      decreases depth, |packets|
    {
      var packet := packets[0];
      InspectLiteralFormat(packet, cell);
      match packet {
        case LiteralPacket(_, body) =>
          return Some(body);
        case CompressedPacket(algorithm, body) =>
          var inner := lib.decompress(algorithm, body);
          if depth == 0 || inner == None {
            return None;
          }
          packets, depth := inner.value, depth - 1;
        case OtherPacket =>
          packets := packets[1..];
        case _ =>
          return None;
      }
    }
    return None;
  }

  /** Opens the container under the session key that was found, and reads the payload. */
  method RunOpenContainer(lib: Library, body: seq<byte>, found: Option<Candidate>, cell: FormatCell)
    returns (r: Option<(seq<byte>, nat)>)
    modifies cell
    ensures r == OpenContainer(lib, body, found, old(cell.value))
  {
    if found == None || found.value.algorithm == None {
      return None;
    }
    var payload := lib.open(found.value.algorithm.value, found.value.key, body);
    if payload == None {
      return None;
    }
    var data := RunReadPayload(lib, payload.value, cell);
    if data == None {
      return None;
    }
    return Some((data.value, cell.value));
  }

  method RunSymDecrypt(lib: Library, message: seq<Packet>, password: seq<byte>) returns (r: Option<(seq<byte>, nat)>)
    requires lib.Lawful()
    ensures r == SymDecrypt(lib, message, password)
  {
    var cell := new FormatCell();
    var helper := new PasswordHelper(password, cell);
    var skesks: seq<Skesk>, pkesks: seq<seq<byte>> := [], [];
    for i := 0 to |message|
      invariant SymDecrypt(lib, message, password)
             == ReadMessage(lib, message[i..], Password(password), skesks, pkesks, cell.value)
    {
      hide OpenContainer;
      assert message[i..][1..] == message[i + 1..];
      helper.Inspect(message[i]);
      match message[i] {
        case SkeskPacket(skesk) =>
          skesks := skesks + [skesk];
        case PkeskPacket(pkesk) =>
          pkesks := pkesks + [pkesk];
        case OtherPacket =>
        case SealedPacket(body) =>
          var session, _ := helper.Decrypt(lib, skesks, Opens(lib, body));
          r := RunOpenContainer(lib, body, session, cell);
          return r;
        case _ =>
          return None;
      }
    }
    return None;
  }

  method RunPubDecrypt(lib: Library, message: seq<Packet>, pairs: seq<seq<byte>>) returns (r: Option<(seq<byte>, nat)>)
    requires lib.Lawful()
    ensures r == PubDecrypt(lib, message, pairs)
  {
    if pairs == [] {
      return None;
    }
    var cell := new FormatCell();
    var helper := new KeyHelper(pairs, cell);
    var skesks: seq<Skesk>, pkesks: seq<seq<byte>> := [], [];
    for i := 0 to |message|
      invariant PubDecrypt(lib, message, pairs)
             == ReadMessage(lib, message[i..], KeyPairs(pairs), skesks, pkesks, cell.value)
    {
      hide OpenContainer;
      assert message[i..][1..] == message[i + 1..];
      helper.Inspect(message[i]);
      match message[i] {
        case SkeskPacket(skesk) =>
          skesks := skesks + [skesk];
        case PkeskPacket(pkesk) =>
          pkesks := pkesks + [pkesk];
        case OtherPacket =>
        case SealedPacket(body) =>
          var session, _ := helper.Decrypt(lib, pkesks, Opens(lib, body));
          r := RunOpenContainer(lib, body, session, cell);
          return r;
        case _ =>
          return None;
      }
    }
    return None;
  }

  method RunDecryptedText(data: seq<byte>, format: nat, options: DecryptOptions) returns (r: Option<seq<byte>>)
    ensures r == DecryptedText(data, format, options)
  {
    if format != LITERAL_TEXT && format != LITERAL_UNICODE {
      return None;
    }
    var converted := data;
    if options.convertCrlf {
      converted := Crlf.DecodeLoop(data);
    }
    if 0 in converted || !Utf8.Valid(converted) {
      return None;
    }
    return Some(converted);
  }

  // ---------- The entry points ----------

  function PgpSymEncrypt(lib: Library, draws: Draws, text: seq<byte>, password: seq<byte>, options: string)
    : Option<seq<Packet>>
    requires lib.Lawful()
  {
    SymEncrypt(lib, draws, text, password, options, true)
  }

  function PgpSymEncryptBytea(lib: Library, draws: Draws, data: seq<byte>, password: seq<byte>, options: string)
    : Option<seq<Packet>>
    requires lib.Lawful()
  {
    SymEncrypt(lib, draws, data, password, options, false)
  }

  ghost function PgpSymDecrypt(lib: Library, message: seq<Packet>, password: seq<byte>, options: string)
    : Option<seq<byte>>
    requires lib.Lawful()
  {
    var parsed :- ParseDecryptOptions(options);
    var (data, format) :- SymDecrypt(lib, message, password);
    DecryptedText(data, format, parsed)
  }

  ghost function PgpSymDecryptBytea(lib: Library, message: seq<Packet>, password: seq<byte>, options: string)
    : Option<seq<byte>>
    requires lib.Lawful()
  {
    var _ :- ParseDecryptOptions(options);
    var (data, _) :- SymDecrypt(lib, message, password);
    Some(data)
  }

  method RunPgpSymDecrypt(lib: Library, message: seq<Packet>, password: seq<byte>, options: string)
    returns (r: Option<seq<byte>>)
    requires lib.Lawful()
    ensures r == PgpSymDecrypt(lib, message, password, options)
  {
    var parsed := RunParseDecryptOptions(options);
    if parsed == None {
      return None;
    }
    var read := RunSymDecrypt(lib, message, password);
    if read == None {
      return None;
    }
    r := RunDecryptedText(read.value.0, read.value.1, parsed.value);
  }

  function PgpPubEncrypt(lib: Library, draws: Draws, text: seq<byte>, recipients: seq<seq<byte>>, options: string)
    : Option<seq<Packet>>
  {
    PubEncrypt(lib, draws, text, recipients, options, true)
  }

  function PgpPubEncryptBytea(lib: Library, draws: Draws, data: seq<byte>, recipients: seq<seq<byte>>, options: string)
    : Option<seq<Packet>>
  {
    PubEncrypt(lib, draws, data, recipients, options, false)
  }

  ghost function PgpPubDecrypt(lib: Library, message: seq<Packet>, pairs: seq<seq<byte>>, options: string)
    : Option<seq<byte>>
    requires lib.Lawful()
  {
    var parsed :- ParseDecryptOptions(options);
    var (data, format) :- PubDecrypt(lib, message, pairs);
    DecryptedText(data, format, parsed)
  }

  ghost function PgpPubDecryptBytea(lib: Library, message: seq<Packet>, pairs: seq<seq<byte>>, options: string)
    : Option<seq<byte>>
    requires lib.Lawful()
  {
    var _ :- ParseDecryptOptions(options);
    var (data, _) :- PubDecrypt(lib, message, pairs);
    Some(data)
  }

  method RunPgpPubDecrypt(lib: Library, message: seq<Packet>, pairs: seq<seq<byte>>, options: string)
    returns (r: Option<seq<byte>>)
    requires lib.Lawful()
    ensures r == PgpPubDecrypt(lib, message, pairs, options)
  {
    var parsed := RunParseDecryptOptions(options);
    if parsed == None {
      return None;
    }
    var read := RunPubDecrypt(lib, message, pairs);
    if read == None {
      return None;
    }
    r := RunDecryptedText(read.value.0, read.value.1, parsed.value);
  }
}
