/** What decryption makes of everything that encryption emits. */
module PgpMessagesLaws {
  import opened Bytes
  import opened KeyTrials
  import opened OpenPgpTypes
  import opened PgpMessages
  import opened PgpOptions
  import opened PgpOptionsLaws
  import opened SessionKeys
  import opened SessionKeysLaws
  import opened Wrappers
  import Crlf
  import Utf8

  // ---------- The literal format cell ----------

  /** After a list of packets, the cell holds the format of the last literal packet, or what it held before. */
  lemma {:induction false} LastLiteralDecides(cell: nat, packets: seq<Packet>, last: nat)
    requires last <= |packets|
    requires forall i | last <= i < |packets| :: !packets[i].LiteralPacket?
    requires last > 0 ==> packets[last - 1].LiteralPacket?
    ensures InspectedAll(cell, packets) == if last == 0 then cell else FormatCode(packets[last - 1].format)
    decreases |packets|
  {
    if packets != [] {
      var rest := packets[1..];
      assert forall i | 0 <= i < |rest| :: rest[i] == packets[i + 1];
      LastLiteralDecides(Inspected(cell, packets[0]), rest, if last == 0 then 0 else last - 1);
    }
  }

  // ---------- Reading a message ----------

  /** What a message consists of: its session key packets, and its container. */
  datatype Envelope = Envelope(skesks: seq<Skesk>, pkesks: seq<seq<byte>>, body: seq<byte>)

  /** Session key packets up to the first container; anything but them and packets to be skipped is an error. */
  function EnvelopeOf(message: seq<Packet>): Option<Envelope>
    decreases |message|
  {
    if message == [] then None
    else
      match message[0]
      case SealedPacket(body) => Some(Envelope([], [], body))
      case SkeskPacket(skesk) =>
        var rest :- EnvelopeOf(message[1..]);
        Some(rest.(skesks := [skesk] + rest.skesks))
      case PkeskPacket(pkesk) =>
        var rest :- EnvelopeOf(message[1..]);
        Some(rest.(pkesks := [pkesk] + rest.pkesks))
      case OtherPacket => EnvelopeOf(message[1..])
      case _ => None
  }

  lemma {:induction false} ReadMessageAfter(lib: Library, message: seq<Packet>, credential: Credential,
                                           skesks: seq<Skesk>, pkesks: seq<seq<byte>>)
    requires lib.Lawful()
    ensures ReadMessage(lib, message, credential, skesks, pkesks, LITERAL_UNKNOWN)
         == match EnvelopeOf(message)
            case None => None
            case Some(e) =>
              var results := Results(lib, credential, skesks + e.skesks, pkesks + e.pkesks);
              OpenContainer(lib, e.body, FirstAccepted(results, Opens(lib, e.body)), LITERAL_UNKNOWN)
    decreases |message|
  {
    hide OpenContainer, FirstAccepted, Results;
    if message != [] {
      var rest := EnvelopeOf(message[1..]);
      match message[0]
      case SealedPacket(body) =>
        assert skesks + [] == skesks && pkesks + [] == pkesks;
      case SkeskPacket(skesk) =>
        ReadMessageAfter(lib, message[1..], credential, skesks + [skesk], pkesks);
        assert rest.Some? ==> skesks + [skesk] + rest.value.skesks == skesks + ([skesk] + rest.value.skesks);
      case PkeskPacket(pkesk) =>
        ReadMessageAfter(lib, message[1..], credential, skesks, pkesks + [pkesk]);
        assert rest.Some? ==> pkesks + [pkesk] + rest.value.pkesks == pkesks + ([pkesk] + rest.value.pkesks);
      case OtherPacket =>
        ReadMessageAfter(lib, message[1..], credential, skesks, pkesks);
      case _ =>
    }
  }

  /** Any message opens with the first candidate that its container accepts, and fails without one. */
  lemma ReadMessageOf(lib: Library, message: seq<Packet>, credential: Credential)
    requires lib.Lawful()
    ensures ReadMessage(lib, message, credential, [], [], LITERAL_UNKNOWN)
         == match EnvelopeOf(message)
            case None => None
            case Some(e) =>
              var results := Results(lib, credential, e.skesks, e.pkesks);
              OpenContainer(lib, e.body, FirstAccepted(results, Opens(lib, e.body)), LITERAL_UNKNOWN)
  {
    ReadMessageAfter(lib, message, credential, [], []);
    var e := EnvelopeOf(message);
    assert e.Some? ==> [] + e.value.skesks == e.value.skesks && [] + e.value.pkesks == e.value.pkesks;
  }

  /** No candidate but one opens the container. */
  ghost predicate OnlyOpens(lib: Library, body: seq<byte>, truth: Candidate) {
    forall cipher, key :: lib.open(cipher, key, body).Some? ==> truth == Candidate(Some(cipher), key)
  }

  /** When the true cipher and key are among the candidates, and nothing else opens the container, it is read. */
  lemma ReadWithTruth(lib: Library, message: seq<Packet>, credential: Credential, e: Envelope,
                      cipher: SymmetricAlgorithm, key: seq<byte>, payload: seq<Packet>)
    requires lib.Lawful() && KeySize(cipher) == Some(|key|)
    requires EnvelopeOf(message) == Some(e) && e.body == lib.seal(cipher, key, payload)
    requires OnlyOpens(lib, e.body, Candidate(Some(cipher), key))
    ensures ReadMessage(lib, message, credential, [], [], LITERAL_UNKNOWN)
         == if Some(Candidate(Some(cipher), key)) in Results(lib, credential, e.skesks, e.pkesks)
            then ReadPayload(lib, payload, LITERAL_UNKNOWN, lib.maxDepth)
            else None
  {
    hide ReadPayload, Results, FirstAccepted, Asked, ReadMessage;
    var truth := Candidate(Some(cipher), key);
    var results := Results(lib, credential, e.skesks, e.pkesks);
    assert lib.open(cipher, key, e.body) == Some(payload);
    assert Opens(lib, e.body)(truth);
    ReadMessageOf(lib, message, credential);
    TrialsFindFirst(results, Opens(lib, e.body));
    if Some(truth) in results {
      var i :| 0 <= i < |results| && results[i] == Some(truth);
      assert results[i].Some? && Opens(lib, e.body)(results[i].value);
    }
  }

  // ---------- Encryption by password ----------

  /** The session key is drawn, or the options name no cipher for the password but that of the payload. */
  predicate OneCipher(o: EncryptOptions) {
    o.useSessionKey || o.s2kCipher == None || o.s2kCipher == Some(o.cipher)
  }

  /** The guards that a caller can check before encrypting: the option string, and the cipher-equality check. */
  predicate EncryptAccepts(options: string, text: bool) {
    var o := ParseOptions(options, text);
    o.Some? && OneCipher(o.value)
  }

  /** What is emitted for accepted options, also where the check of the ciphers would have stopped. */
  lemma EmitShape(lib: Library, draws: Draws, data: seq<byte>, password: seq<byte>, o: EncryptOptions, s2k: S2k)
    requires lib.Lawful() && draws.Valid() && WithinLimits(o)
    ensures var message := Emit(lib, draws, data, password, o, s2k);
      && SessionKeyOf(lib, draws, o, s2k, password).Some? && WritePayload(lib, data, o).Some? && message.Some?
      && var sessionKey := SessionKeyOf(lib, draws, o, s2k, password).value;
      && KeySize(o.cipher) == Some(|sessionKey|)
      && |message.value| == 2 && message.value[0].SkeskPacket?
      && message.value[0].skesk.cipher == (if o.s2kCipher.Some? then o.s2kCipher.value else o.cipher)
      && message.value[1] == SealedPacket(lib.seal(o.cipher, sessionKey, WritePayload(lib, data, o).value))
      && (DecryptSkesk(lib.keys, message.value[0].skesk, password) == Some(Candidate(Some(o.cipher), sessionKey))
          <==> OneCipher(o))
  {
    hide DecryptSkesk, SkeskWithPassword;
    var sessionKey := SessionKeyOf(lib, draws, o, s2k, password).value;
    if o.useSessionKey {
      SessionKeyModeRecovers(lib.keys, o.cipher, EskCipher(o), s2k, sessionKey, password);
    } else {
      DirectModeRecoversIff(lib.keys, o.cipher, EskCipher(o), s2k, password);
    }
  }

  /** No error arm past the two guards is ever taken, and the packet leads back to the session key. */
  lemma EncryptEmits(lib: Library, draws: Draws, data: seq<byte>, password: seq<byte>, options: string, text: bool)
    requires lib.Lawful() && draws.Valid()
    requires EncryptAccepts(options, text)
    ensures var o := ParseOptions(options, text).value;
      var message := SymEncrypt(lib, draws, data, password, options, text);
      && MakeS2k(lib.keys, o, draws).Some?
      && var sessionKey := SessionKeyOf(lib, draws, o, MakeS2k(lib.keys, o, draws).value, password);
      && sessionKey.Some? && KeySize(o.cipher) == Some(|sessionKey.value|)
      && message.Some? && |message.value| == 2
      && message.value[0].SkeskPacket?
      && message.value[0].skesk.cipher == (if o.s2kCipher.Some? then o.s2kCipher.value else o.cipher)
      && DecryptSkesk(lib.keys, message.value[0].skesk, password) == Some(Candidate(Some(o.cipher), sessionKey.value))
      && WritePayload(lib, data, o).Some?
      && message.value[1] == SealedPacket(lib.seal(o.cipher, sessionKey.value, WritePayload(lib, data, o).value))
  {
    hide ParseOptions, MakeS2k, DecryptSkesk, Emit;
    AcceptedIsWithinLimits(options, text);
    AcceptedOptionsGiveS2k(lib.keys, options, text, draws);
    var o := ParseOptions(options, text).value;
    EmitShape(lib, draws, data, password, o, MakeS2k(lib.keys, o, draws).value);
  }

  /** Encryption succeeds exactly for accepted options under which one cipher serves both purposes. */
  lemma EncryptSucceedsIff(lib: Library, draws: Draws, data: seq<byte>, password: seq<byte>, options: string,
                           text: bool)
    requires lib.Lawful() && draws.Valid()
    ensures SymEncrypt(lib, draws, data, password, options, text).Some? <==> EncryptAccepts(options, text)
  {
    if EncryptAccepts(options, text) {
      EncryptEmits(lib, draws, data, password, options, text);
    }
  }

  /** A payload is compressed exactly when an algorithm and a level above zero are set, and reads back either way. */
  lemma PayloadReadsBack(lib: Library, data: seq<byte>, o: EncryptOptions, cell: nat)
    requires lib.Lawful() && WritePayload(lib, data, o).Some?
    ensures ReadPayload(lib, WritePayload(lib, data, o).value, cell, lib.maxDepth)
         == Some((LiteralBody(o, data), FormatCode(LiteralFormat(o))))
    ensures var payload := WritePayload(lib, data, o).value;
      && |payload| == 1
      && (payload[0].CompressedPacket? <==> o.compression != Uncompressed && o.compressionLevel > 0)
      && (payload[0].CompressedPacket? ==> payload[0].algorithm == o.compression)
  {
  }

  /** A message of one session key packet that yields the true cipher and key is read, whatever else would open it. */
  lemma ReadOnePacket(lib: Library, skesk: Skesk, cipher: SymmetricAlgorithm, key: seq<byte>, payload: seq<Packet>,
                      password: seq<byte>)
    requires lib.Lawful() && KeySize(cipher) == Some(|key|)
    requires DecryptSkesk(lib.keys, skesk, password) == Some(Candidate(Some(cipher), key))
    ensures SymDecrypt(lib, [SkeskPacket(skesk), SealedPacket(lib.seal(cipher, key, payload))], password)
         == ReadPayload(lib, payload, LITERAL_UNKNOWN, lib.maxDepth)
  {
    hide ReadPayload, DecryptSkesk, ReadMessage;
    var body, truth := lib.seal(cipher, key, payload), Candidate(Some(cipher), key);
    var message := [SkeskPacket(skesk), SealedPacket(body)];
    EnvelopeOfPair(skesk, body);
    ReadMessageOf(lib, message, Password(password));
    assert lib.open(cipher, key, body) == Some(payload);
    assert Results(lib, Password(password), [skesk], []) == [Some(truth)];
    assert FirstAccepted([Some(truth)], Opens(lib, body)) == Some(truth);
  }

  lemma EnvelopeOfPair(skesk: Skesk, body: seq<byte>)
    ensures EnvelopeOf([SkeskPacket(skesk), SealedPacket(body)]) == Some(Envelope([skesk], [], body))
  {
    var message := [SkeskPacket(skesk), SealedPacket(body)];
    assert message[1..] == [SealedPacket(body)];
    assert EnvelopeOf(message[1..]) == Some(Envelope([], [], body));
    assert message[0] == SkeskPacket(skesk);
    assert EnvelopeOf(message) == Some(Envelope([skesk] + [], [], body));
    assert [skesk] + [] == [skesk];
  }

  /** The password and the message give back the literal body and its format, whatever the options were. */
  lemma DecryptRecovers(lib: Library, draws: Draws, data: seq<byte>, password: seq<byte>, options: string, text: bool)
    requires lib.Lawful() && draws.Valid()
    requires EncryptAccepts(options, text)
    ensures var o := ParseOptions(options, text).value;
      var message := SymEncrypt(lib, draws, data, password, options, text);
      && message.Some?
      && SymDecrypt(lib, message.value, password) == Some((LiteralBody(o, data), FormatCode(LiteralFormat(o))))
  {
    hide ParseOptions, MakeS2k, DecryptSkesk, WritePayload, ReadPayload, SymEncrypt, SymDecrypt, SessionKeyOf;
    EncryptEmits(lib, draws, data, password, options, text);
    var o := ParseOptions(options, text).value;
    var message := SymEncrypt(lib, draws, data, password, options, text).value;
    var sessionKey := SessionKeyOf(lib, draws, o, MakeS2k(lib.keys, o, draws).value, password).value;
    var payload := WritePayload(lib, data, o).value;
    ReadOnePacket(lib, message[0].skesk, o.cipher, sessionKey, payload, password);
    assert message == [SkeskPacket(message[0].skesk), SealedPacket(lib.seal(o.cipher, sessionKey, payload))];
    PayloadReadsBack(lib, data, o, LITERAL_UNKNOWN);
  }

  /** The marker that decryption sees says which entry point encrypted, and whether in Unicode mode. */
  lemma MarkerTravels(lib: Library, draws: Draws, data: seq<byte>, password: seq<byte>, options: string, text: bool)
    requires lib.Lawful() && draws.Valid()
    requires EncryptAccepts(options, text)
    ensures var message := SymEncrypt(lib, draws, data, password, options, text);
      && message.Some? && SymDecrypt(lib, message.value, password).Some?
      && var marker := SymDecrypt(lib, message.value, password).value.1;
      && (marker == LITERAL_BINARY <==> !text)
      && (marker == LITERAL_UNICODE <==> text && ParseOptions(options, text).value.unicodeMode)
      && (marker == LITERAL_TEXT <==> text && !ParseOptions(options, text).value.unicodeMode)
  {
    hide ParseOptions, SymDecrypt, SymEncrypt;
    DecryptRecovers(lib, draws, data, password, options, text);
    AcceptedIsWithinLimits(options, text);
  }

  // ---------- The check of the S2K cipher ----------

  /**
    A message whose session key is derived from the password is read when its packet names the cipher of the
    payload; when it names any other, and only the true cipher and key open the container, it cannot be read.
   */
  lemma DirectModeMessageIff(lib: Library, cipher: SymmetricAlgorithm, key: seq<byte>, payload: seq<Packet>,
                             s2kCipher: SymmetricAlgorithm, s2k: S2k, password: seq<byte>)
    requires lib.Lawful() && KeySize(cipher) == Some(|key|) && key == lib.keys.deriveKey(s2k, password, |key|)
    requires OnlyOpens(lib, lib.seal(cipher, key, payload), Candidate(Some(cipher), key))
    ensures SymDecrypt(lib, [SkeskPacket(Skesk(s2kCipher, s2k, None)), SealedPacket(lib.seal(cipher, key, payload))],
                       password)
         == if s2kCipher == cipher then ReadPayload(lib, payload, LITERAL_UNKNOWN, lib.maxDepth) else None
  {
    hide ReadPayload, DecryptSkesk, ReadMessage;
    var skesk, body := Skesk(s2kCipher, s2k, None), lib.seal(cipher, key, payload);
    EnvelopeOfPair(skesk, body);
    DirectModeRecoversIff(lib.keys, cipher, s2kCipher, s2k, password);
    ReadWithTruth(lib, [SkeskPacket(skesk), SealedPacket(body)], Password(password), Envelope([skesk], [], body),
                  cipher, key, payload);
    assert Results(lib, Password(password), [skesk], []) == [DecryptSkesk(lib.keys, skesk, password)];
  }

  /**
    The check of the S2K cipher is exact: the message emitted from behind it for accepted options reads back if
    the check passes; if it does not, and only the true cipher and key open the container, nothing is read.
   */
  lemma CipherCheckIsExact(lib: Library, draws: Draws, data: seq<byte>, password: seq<byte>, options: string,
                           text: bool)
    requires lib.Lawful() && draws.Valid()
    requires ParseOptions(options, text).Some?
    ensures var o := ParseOptions(options, text).value;
      && MakeS2k(lib.keys, o, draws).Some?
      && var s2k := MakeS2k(lib.keys, o, draws).value;
      var message := Emit(lib, draws, data, password, o, s2k);
      && message.Some? && |message.value| == 2 && message.value[1].SealedPacket?
      && SessionKeyOf(lib, draws, o, s2k, password).Some?
      && var truth := Candidate(Some(o.cipher), SessionKeyOf(lib, draws, o, s2k, password).value);
      && (OneCipher(o) ==>
            SymDecrypt(lib, message.value, password) == Some((LiteralBody(o, data), FormatCode(LiteralFormat(o)))))
      && (!OneCipher(o) && OnlyOpens(lib, message.value[1].body, truth) ==>
            SymDecrypt(lib, message.value, password) == None)
  {
    hide ParseOptions, MakeS2k, DecryptSkesk, WritePayload, ReadPayload, Emit, SymDecrypt, SessionKeyOf;
    hide OneCipher, OnlyOpens, WithinLimits;
    AcceptedIsWithinLimits(options, text);
    AcceptedOptionsGiveS2k(lib.keys, options, text, draws);
    var o := ParseOptions(options, text).value;
    EmittedReadsIff(lib, draws, data, password, o, MakeS2k(lib.keys, o, draws).value);
  }

  lemma EmittedReadsIff(lib: Library, draws: Draws, data: seq<byte>, password: seq<byte>, o: EncryptOptions, s2k: S2k)
    requires lib.Lawful() && draws.Valid() && WithinLimits(o)
    ensures var message := Emit(lib, draws, data, password, o, s2k);
      && message.Some? && |message.value| == 2 && message.value[1].SealedPacket?
      && SessionKeyOf(lib, draws, o, s2k, password).Some?
      && var truth := Candidate(Some(o.cipher), SessionKeyOf(lib, draws, o, s2k, password).value);
      && (OneCipher(o) ==>
            SymDecrypt(lib, message.value, password) == Some((LiteralBody(o, data), FormatCode(LiteralFormat(o)))))
      && (!OneCipher(o) && OnlyOpens(lib, message.value[1].body, truth) ==>
            SymDecrypt(lib, message.value, password) == None)
  {
    hide DecryptSkesk, WritePayload, ReadPayload, Emit, SessionKeyOf, OneCipher, ReadMessage, OnlyOpens;
    EmitShape(lib, draws, data, password, o, s2k);
    var message := Emit(lib, draws, data, password, o, s2k).value;
    var key := SessionKeyOf(lib, draws, o, s2k, password).value;
    var payload := WritePayload(lib, data, o).value;
    var skesk, body := message[0].skesk, message[1].body;
    assert message == [SkeskPacket(skesk), SealedPacket(body)];
    if OneCipher(o) {
      ReadOnePacket(lib, skesk, o.cipher, key, payload, password);
      PayloadReadsBack(lib, data, o, LITERAL_UNKNOWN);
    } else if OnlyOpens(lib, body, Candidate(Some(o.cipher), key)) {
      EnvelopeOfPair(skesk, body);
      ReadWithTruth(lib, message, Password(password), Envelope([skesk], [], body), o.cipher, key, payload);
      assert Results(lib, Password(password), [skesk], []) == [DecryptSkesk(lib.keys, skesk, password)];
    }
  }

  // ---------- The text gate ----------

  /** What two `convert-crlf` settings make of a text between them. */
  function Converted(text: seq<byte>, encoding: bool, decoding: bool): seq<byte> {
    var encoded := if encoding then Crlf.Encode(text) else text;
    if decoding then Crlf.Decode(encoded) else encoded
  }

  /** No check on the text ever rejects what was encrypted as text. */
  lemma TextPasses(text: seq<byte>, o: EncryptOptions, d: DecryptOptions)
    requires Utf8.Valid(text) && 0 !in text && o.textInput
    ensures DecryptedText(LiteralBody(o, text), FormatCode(LiteralFormat(o)), d)
         == Some(Converted(text, o.convertCrlf, d.convertCrlf))
  {
    hide Utf8.Valid, Crlf.Encode, Crlf.Decode;
    var encoded := LiteralBody(o, text);
    Crlf.Utf8Kept(text);
    Crlf.Utf8Kept(encoded);
    Crlf.OtherOctetsKept(text, 0);
    Crlf.OtherOctetsKept(encoded, 0);
  }

  /** The text comes back unchanged exactly when the settings agree, or had nothing to convert. */
  lemma ConvertedIsIdentityIff(text: seq<byte>, encoding: bool, decoding: bool)
    ensures Converted(text, encoding, decoding) == text
       <==> match (encoding, decoding)
            case (true, false) => Crlf.LF !in text
            case (false, true) => !Crlf.HasCrLf(text)
            case _ => true
  {
    hide Crlf.Encode, Crlf.Decode;
    Crlf.DecodeEncode(text);
    Crlf.EncodeIsIdentityIff(text);
    Crlf.DecodeIsIdentityIff(text);
  }

  // ---------- The entry points for passwords ----------

  /**
    Text encrypted with one option string and decrypted with another comes back converted by the one and
    converted back by the other; none of the checks on the text ever fails.
   */
  lemma TextUnderAnyOptions(lib: Library, draws: Draws, text: seq<byte>, password: seq<byte>, options: string,
                            other: string)
    requires lib.Lawful() && draws.Valid()
    requires EncryptAccepts(options, true)
    requires Utf8.Valid(text) && 0 !in text
    ensures var message := PgpSymEncrypt(lib, draws, text, password, options);
      && message.Some?
      && PgpSymDecrypt(lib, message.value, password, other)
         == match ParseDecryptOptions(other)
            case None => None
            case Some(d) => Some(Converted(text, ParseOptions(options, true).value.convertCrlf, d.convertCrlf))
  {
    hide ParseOptions, ParseDecryptOptions, SymDecrypt, SymEncrypt, Utf8.Valid, DecryptedText, Converted;
    DecryptRecovers(lib, draws, text, password, options, true);
    AcceptedIsWithinLimits(options, true);
    var d := ParseDecryptOptions(other);
    if d.Some? {
      TextPasses(text, ParseOptions(options, true).value, d.value);
    }
  }

  /** The round trip: whenever encryption succeeds, decrypting with the same password and options returns the text. */
  lemma TextRoundTrip(lib: Library, draws: Draws, text: seq<byte>, password: seq<byte>, options: string)
    requires lib.Lawful() && draws.Valid()
    requires Utf8.Valid(text) && 0 !in text
    ensures var message := PgpSymEncrypt(lib, draws, text, password, options);
      && (message.Some? <==> EncryptAccepts(options, true))
      && (message.Some? ==> PgpSymDecrypt(lib, message.value, password, options) == Some(text))
  {
    hide ParseOptions, ParseDecryptOptions, PgpSymDecrypt, SymEncrypt, Utf8.Valid, Converted;
    EncryptSucceedsIff(lib, draws, text, password, options, true);
    if EncryptAccepts(options, true) {
      ParsersAgree(options, true);
      TextUnderAnyOptions(lib, draws, text, password, options, options);
      var crlf := ParseOptions(options, true).value.convertCrlf;
      ConvertedIsIdentityIff(text, crlf, crlf);
    }
  }

  /** With differing `convert-crlf` settings, exactly the texts without LF, or without CR LF, come back unchanged. */
  lemma MismatchedConversion(lib: Library, draws: Draws, text: seq<byte>, password: seq<byte>, options: string,
                             other: string)
    requires lib.Lawful() && draws.Valid()
    requires EncryptAccepts(options, true)
    requires Utf8.Valid(text) && 0 !in text
    ensures var message := PgpSymEncrypt(lib, draws, text, password, options);
      && message.Some?
      && (PgpSymDecrypt(lib, message.value, password, other) == Some(text)
          <==> match ParseDecryptOptions(other)
               case None => false
               case Some(d) =>
                 match (ParseOptions(options, true).value.convertCrlf, d.convertCrlf)
                 case (true, false) => Crlf.LF !in text
                 case (false, true) => !Crlf.HasCrLf(text)
                 case _ => true)
  {
    hide ParseOptions, ParseDecryptOptions, PgpSymDecrypt, PgpSymEncrypt, Utf8.Valid, Converted;
    TextUnderAnyOptions(lib, draws, text, password, options, other);
    var d := ParseDecryptOptions(other);
    if d.Some? {
      ConvertedIsIdentityIff(text, ParseOptions(options, true).value.convertCrlf, d.value.convertCrlf);
    }
  }

  /** Binary data comes back unchanged under any options, and is never taken for text. */
  lemma BinaryUnderAnyOptions(lib: Library, draws: Draws, data: seq<byte>, password: seq<byte>, options: string,
                              other: string)
    requires lib.Lawful() && draws.Valid()
    requires EncryptAccepts(options, false) && ParseDecryptOptions(other).Some?
    ensures var message := PgpSymEncryptBytea(lib, draws, data, password, options);
      && message.Some?
      && PgpSymDecryptBytea(lib, message.value, password, other) == Some(data)
      && PgpSymDecrypt(lib, message.value, password, other) == None
  {
    hide ParseOptions, ParseDecryptOptions, SymDecrypt, SymEncrypt;
    DecryptRecovers(lib, draws, data, password, options, false);
    AcceptedIsWithinLimits(options, false);
  }

  /** Read as binary, encrypted text is the text itself exactly when nothing was converted. */
  lemma TextReadAsBinary(lib: Library, draws: Draws, text: seq<byte>, password: seq<byte>, options: string)
    requires lib.Lawful() && draws.Valid()
    requires EncryptAccepts(options, true)
    ensures var message := PgpSymEncrypt(lib, draws, text, password, options);
      && message.Some?
      && (PgpSymDecryptBytea(lib, message.value, password, options) == Some(text)
          <==> !ParseOptions(options, true).value.convertCrlf || Crlf.LF !in text)
  {
    hide ParseOptions, ParseDecryptOptions, SymDecrypt, SymEncrypt, Crlf.Encode;
    DecryptRecovers(lib, draws, text, password, options, true);
    AcceptedIsWithinLimits(options, true);
    ParsersAgree(options, true);
    Crlf.EncodeIsIdentityIff(text);
  }

  // ---------- Messages with many session key packets ----------

  /**
    Among any session key packets, for any passwords and in any order: when one of them yields the true cipher
    and key, and no other pair opens the container, decryption reads what was sealed.
   */
  lemma DecryptAmongOthers(lib: Library, message: seq<Packet>, e: Envelope, cipher: SymmetricAlgorithm, key: seq<byte>,
                           payload: seq<Packet>, password: seq<byte>)
    requires lib.Lawful() && KeySize(cipher) == Some(|key|)
    requires EnvelopeOf(message) == Some(e) && e.body == lib.seal(cipher, key, payload)
    requires exists s <- e.skesks :: DecryptSkesk(lib.keys, s, password) == Some(Candidate(Some(cipher), key))
    requires OnlyOpens(lib, e.body, Candidate(Some(cipher), key))
    ensures SymDecrypt(lib, message, password) == ReadPayload(lib, payload, LITERAL_UNKNOWN, lib.maxDepth)
  {
    hide ReadPayload, DecryptSkesk, ReadMessage, OnlyOpens;
    var truth := Candidate(Some(cipher), key);
    var results := SkeskResults(lib, e.skesks, password);
    var s :| s in e.skesks && DecryptSkesk(lib.keys, s, password) == Some(truth);
    var i :| 0 <= i < |e.skesks| && e.skesks[i] == s;
    assert results[i] == Some(truth);
    ReadWithTruth(lib, message, Password(password), e, cipher, key, payload);
  }

  lemma InSkeskResults(lib: Library, skesks: seq<Skesk>, password: seq<byte>, r: Option<Candidate>)
    requires lib.Lawful()
    ensures r in SkeskResults(lib, skesks, password) <==> exists s <- skesks :: DecryptSkesk(lib.keys, s, password) == r
  {
    hide DecryptSkesk;
    var results := SkeskResults(lib, skesks, password);
    if r in results {
      var i :| 0 <= i < |results| && results[i] == r;
      assert skesks[i] in skesks;
    }
    forall s <- skesks | DecryptSkesk(lib.keys, s, password) == r
      ensures r in results
    {
      var i :| 0 <= i < |skesks| && skesks[i] == s;
      assert results[i] == r;
    }
  }

  /** With a password, the order of the session key packets does not matter. */
  lemma SymDecryptOrderDoesNotMatter(lib: Library, message: seq<Packet>, message': seq<Packet>, e: Envelope,
                                     e': Envelope, password: seq<byte>, truth: Candidate)
    requires lib.Lawful()
    requires EnvelopeOf(message) == Some(e) && EnvelopeOf(message') == Some(e') && e.body == e'.body
    requires forall s :: s in e.skesks <==> s in e'.skesks
    requires OnlyOpens(lib, e.body, truth)
    ensures SymDecrypt(lib, message, password) == SymDecrypt(lib, message', password)
  {
    hide DecryptSkesk, ReadMessage, OpenContainer, FirstAccepted, SkeskResults;
    var a, b := SkeskResults(lib, e.skesks, password), SkeskResults(lib, e'.skesks, password);
    forall r
      ensures r in a <==> r in b
    {
      InSkeskResults(lib, e.skesks, password, r);
      InSkeskResults(lib, e'.skesks, password, r);
    }
    OrderDoesNotMatter(a, b, Opens(lib, e.body));
    ReadMessageOf(lib, message, Password(password));
    ReadMessageOf(lib, message', Password(password));
  }

  /** With a secret key, neither the order of the session key packets nor that of the key pairs matters. */
  lemma PubDecryptOrderDoesNotMatter(lib: Library, message: seq<Packet>, message': seq<Packet>, e: Envelope,
                                     e': Envelope, pairs: seq<seq<byte>>, pairs': seq<seq<byte>>, truth: Candidate)
    requires lib.Lawful()
    requires EnvelopeOf(message) == Some(e) && EnvelopeOf(message') == Some(e') && e.body == e'.body
    requires forall p :: p in e.pkesks <==> p in e'.pkesks
    requires forall k :: k in pairs <==> k in pairs'
    requires OnlyOpens(lib, e.body, truth)
    ensures PubDecrypt(lib, message, pairs) == PubDecrypt(lib, message', pairs')
  {
    hide ReadMessage, OpenContainer, FirstAccepted, PairResults;
    assert pairs == [] <==> pairs' == [] by {
      if pairs != [] {
        assert pairs[0] in pairs';
      }
      if pairs' != [] {
        assert pairs'[0] in pairs;
      }
    }
    PairOrderDoesNotMatter(e.pkesks, e'.pkesks, pairs, pairs', lib.unwrap, Opens(lib, e.body), truth);
    ReadMessageOf(lib, message, KeyPairs(pairs));
    ReadMessageOf(lib, message', KeyPairs(pairs'));
  }

  // ---------- The entry points for public keys ----------

  lemma {:induction false} EnvelopeOfPkesks(lib: Library, recipients: seq<seq<byte>>, session: Candidate,
                                            body: seq<byte>)
    ensures var e := EnvelopeOf(PkeskPackets(lib, recipients, session) + [SealedPacket(body)]);
      && e.Some? && e.value.skesks == [] && e.value.body == body
      && (forall recipient <- recipients :: lib.wrap(recipient, session) in e.value.pkesks)
  {
    var message := PkeskPackets(lib, recipients, session) + [SealedPacket(body)];
    if recipients != [] {
      var rest := PkeskPackets(lib, recipients[1..], session) + [SealedPacket(body)];
      assert message[1..] == rest;
      EnvelopeOfPkesks(lib, recipients[1..], session, body);
      assert forall r <- recipients :: r == recipients[0] || r in recipients[1..];
    }
  }

  lemma PubEncryptSucceedsIff(lib: Library, draws: Draws, data: seq<byte>, recipients: seq<seq<byte>>, options: string,
                              text: bool)
    ensures PubEncrypt(lib, draws, data, recipients, options, text).Some?
       <==> ParseOptions(options, text).Some? && recipients != []
  {
    hide ParseOptions;
    if ParseOptions(options, text).Some? {
      AcceptedIsWithinLimits(options, text);
    }
  }

  /** The session that a public-key encryption draws. */
  function DrawnSession(draws: Draws, options: string, text: bool): Candidate
    requires ParseOptions(options, text).Some?
  {
    var o := ParseOptions(options, text).value;
    Candidate(Some(o.cipher), if KeySize(o.cipher).Some? then draws.sessionKey(KeySize(o.cipher).value) else [])
  }

  /** A key pair that unlocks what was wrapped for one of the recipients gives back the literal body and its format. */
  lemma PubDecryptRecovers(lib: Library, draws: Draws, data: seq<byte>, recipients: seq<seq<byte>>,
                           pairs: seq<seq<byte>>, recipient: seq<byte>, pair: seq<byte>, options: string, text: bool)
    requires lib.Lawful() && draws.Valid()
    requires ParseOptions(options, text).Some?
    requires recipient in recipients && pair in pairs && lib.Unlocks(pair, recipient)
    ensures var o := ParseOptions(options, text).value;
      var message := PubEncrypt(lib, draws, data, recipients, options, text);
      && message.Some? && EnvelopeOf(message.value).Some?
      && (OnlyOpens(lib, EnvelopeOf(message.value).value.body, DrawnSession(draws, options, text)) ==>
            PubDecrypt(lib, message.value, pairs) == Some((LiteralBody(o, data), FormatCode(LiteralFormat(o)))))
  {
    hide ParseOptions, WritePayload, ReadPayload, ReadMessage, PkeskPackets, OnlyOpens;
    AcceptedIsWithinLimits(options, text);
    PubEncryptSucceedsIff(lib, draws, data, recipients, options, text);
    var o, session := ParseOptions(options, text).value, DrawnSession(draws, options, text);
    var payload := WritePayload(lib, data, o).value;
    var message := PubEncrypt(lib, draws, data, recipients, options, text).value;
    EnvelopeOfPkesks(lib, recipients, session, lib.seal(o.cipher, session.key, payload));
    var e := EnvelopeOf(message).value;
    if OnlyOpens(lib, e.body, session) {
      InPairResults(e.pkesks, pairs, lib.unwrap, Some(session));
      assert lib.unwrap(lib.wrap(recipient, session), pair) == Some(session);
      ReadWithTruth(lib, message, KeyPairs(pairs), e, o.cipher, session.key, payload);
      PayloadReadsBack(lib, data, o, LITERAL_UNKNOWN);
    }
  }

  /**
    Text for any recipients, decrypted with a secret key that holds a key pair of one of them: it comes back
    converted by the one option string and converted back by the other, and unchanged when they are the same.
   */
  lemma PubTextUnderAnyOptions(lib: Library, draws: Draws, text: seq<byte>, recipients: seq<seq<byte>>,
                               pairs: seq<seq<byte>>, recipient: seq<byte>, pair: seq<byte>, options: string,
                               other: string)
    requires lib.Lawful() && draws.Valid()
    requires Utf8.Valid(text) && 0 !in text
    requires ParseOptions(options, true).Some?
    requires recipient in recipients && pair in pairs && lib.Unlocks(pair, recipient)
    ensures var message := PgpPubEncrypt(lib, draws, text, recipients, options);
      && message.Some? && EnvelopeOf(message.value).Some?
      && (OnlyOpens(lib, EnvelopeOf(message.value).value.body, DrawnSession(draws, options, true)) ==>
            && PgpPubDecrypt(lib, message.value, pairs, options) == Some(text)
            && PgpPubDecrypt(lib, message.value, pairs, other)
               == match ParseDecryptOptions(other)
                  case None => None
                  case Some(d) => Some(Converted(text, ParseOptions(options, true).value.convertCrlf, d.convertCrlf)))
  {
    hide ParseOptions, ParseDecryptOptions, PubDecrypt, PubEncrypt, Utf8.Valid, DecryptedText, Converted, OnlyOpens;
    hide EnvelopeOf, DrawnSession;
    PubDecryptRecovers(lib, draws, text, recipients, pairs, recipient, pair, options, true);
    AcceptedIsWithinLimits(options, true);
    ParsersAgree(options, true);
    var o := ParseOptions(options, true).value;
    TextPasses(text, o, DecryptOptions(o.convertCrlf));
    ConvertedIsIdentityIff(text, o.convertCrlf, o.convertCrlf);
    var d := ParseDecryptOptions(other);
    if d.Some? {
      TextPasses(text, o, d.value);
    }
  }
}
