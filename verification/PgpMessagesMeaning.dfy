/** The messages that encryption emits and what decryption returns, in terms of the parsed options and the packets. */
module PgpMessagesMeaning {
  import opened Bytes
  import opened CipherModes
  import opened KeyTrials
  import opened OpenPgpTypes
  import opened PgpMessages
  import opened PgpMessagesLaws
  import opened PgpOptions
  import opened PgpOptionsLaws
  import opened SessionKeys
  import opened SessionKeysLaws
  import opened Wrappers
  import Crlf
  import Utf8

  // ---------- What is emitted ----------

  /** The data in one literal packet, converted for text if that is asked for, and compressed at the given level. */
  ghost predicate IsPayload(lib: Library, data: seq<byte>, o: EncryptOptions, payload: seq<Packet>) {
    exists literal: Packet ::
      && literal.LiteralPacket?
      && literal.data == (if o.textInput && o.convertCrlf then Crlf.Encode(data) else data)
      && (literal.format == Binary <==> !o.textInput)
      && (literal.format == Unicode <==> o.textInput && o.unicodeMode)
      && (literal.format == Text <==> o.textInput && !o.unicodeMode)
      && if o.compression == Uncompressed || o.compressionLevel == 0 then payload == [literal]
         else payload == [CompressedPacket(o.compression, lib.compress(o.compression, o.compressionLevel, [literal]))]
  }

  lemma PayloadIff(lib: Library, data: seq<byte>, o: EncryptOptions, payload: seq<Packet>)
    requires o.compressionLevel <= 9
    ensures WritePayload(lib, data, o) == Some(payload) <==> IsPayload(lib, data, o, payload)
  {
    var literal := LiteralPacket(LiteralFormat(o), LiteralBody(o, data));
    if WritePayload(lib, data, o) == Some(payload) {
      assert literal.LiteralPacket?;
    }
    if IsPayload(lib, data, o, payload) {
      var l: Packet :|
        && l.LiteralPacket?
        && l.data == (if o.textInput && o.convertCrlf then Crlf.Encode(data) else data)
        && (l.format == Binary <==> !o.textInput)
        && (l.format == Unicode <==> o.textInput && o.unicodeMode)
        && (l.format == Text <==> o.textInput && !o.unicodeMode)
        && if o.compression == Uncompressed || o.compressionLevel == 0 then payload == [l]
           else payload == [CompressedPacket(o.compression, lib.compress(o.compression, o.compressionLevel, [l]))];
      assert l == literal;
    }
  }

  /** Of the cipher's key size: drawn, or derived from the password. */
  ghost predicate IsSessionKey(lib: Library, draws: Draws, o: EncryptOptions, s2k: S2k, password: seq<byte>,
                               key: seq<byte>)
  {
    && KeySize(o.cipher) == Some(|key|)
    && key == if o.useSessionKey then draws.sessionKey(|key|) else lib.keys.deriveKey(s2k, password, |key|)
  }

  /** The packet names the S2K cipher if one is given, and holds the session key exactly if that was drawn. */
  ghost predicate IsSessionKeyPacket(lib: Library, o: EncryptOptions, s2k: S2k, password: seq<byte>, key: seq<byte>,
                                     skesk: Skesk)
    requires lib.Lawful()
  {
    && skesk.cipher == (if o.s2kCipher.Some? then o.s2kCipher.value else o.cipher)
    && skesk.s2k == s2k
    && (skesk.esk.Some? <==> o.useSessionKey)
    && (skesk.esk.Some? ==> StandsFor(lib.keys, skesk, password, Candidate(Some(o.cipher), key)))
  }

  /** A session key packet, and the payload sealed under the session key. */
  ghost predicate IsSymMessage(lib: Library, draws: Draws, data: seq<byte>, password: seq<byte>, o: EncryptOptions,
                               message: seq<Packet>)
    requires lib.Lawful() && draws.Valid()
  {
    exists s2k, key, payload ::
      && IsSpecifier(lib.keys, o, draws, s2k)
      && IsSessionKey(lib, draws, o, s2k, password, key)
      && IsPayload(lib, data, o, payload)
      && |message| == 2 && message[0].SkeskPacket?
      && IsSessionKeyPacket(lib, o, s2k, password, key, message[0].skesk)
      && message[1] == SealedPacket(lib.seal(o.cipher, key, payload))
  }

  /** Encryption emits such a message for every accepted option string under which one cipher serves both purposes. */
  lemma SymEncryptMeans(lib: Library, draws: Draws, data: seq<byte>, password: seq<byte>, options: string, text: bool)
    requires lib.Lawful() && draws.Valid()
    ensures var o, message := ParseOptions(options, text), SymEncrypt(lib, draws, data, password, options, text);
      && (message.Some?
          <==> && o.Some?
               && (o.value.useSessionKey || o.value.s2kCipher == None || o.value.s2kCipher == Some(o.value.cipher)))
      && (message.Some? ==> IsSymMessage(lib, draws, data, password, o.value, message.value))
  {
    hide ParseOptions, MakeS2k, IsSpecifier, WritePayload, IsPayload, DecryptSkesk, StandsFor;
    EncryptSucceedsIff(lib, draws, data, password, options, text);
    if EncryptAccepts(options, text) {
      AcceptedIsWithinLimits(options, text);
      var o := ParseOptions(options, text).value;
      EncryptEmits(lib, draws, data, password, options, text);
      var s2k := MakeS2k(lib.keys, o, draws).value;
      SpecifierIff(lib.keys, o, draws, s2k);
      var message := SymEncrypt(lib, draws, data, password, options, text).value;
      var key := SessionKeyOf(lib, draws, o, s2k, password).value;
      PayloadIff(lib, data, o, WritePayload(lib, data, o).value);
      DecryptSkeskIff(lib.keys, message[0].skesk, password, Candidate(Some(o.cipher), key));
      EmittedPacket(lib, draws, data, password, o, s2k);
      assert IsSessionKey(lib, draws, o, s2k, password, key);
    }
  }

  lemma EmittedPacket(lib: Library, draws: Draws, data: seq<byte>, password: seq<byte>, o: EncryptOptions, s2k: S2k)
    requires lib.Lawful() && draws.Valid() && WithinLimits(o)
    ensures var message := Emit(lib, draws, data, password, o, s2k);
      && message.Some? && |message.value| == 2 && message.value[0].SkeskPacket?
      && message.value[0].skesk.s2k == s2k && (message.value[0].skesk.esk.Some? <==> o.useSessionKey)
  {
    hide DecryptSkesk, SkeskWithPassword;
    var sessionKey := SessionKeyOf(lib, draws, o, s2k, password).value;
    if o.useSessionKey {
      SessionKeyModeRecovers(lib.keys, o.cipher, EskCipher(o), s2k, sessionKey, password);
    }
  }

  // ---------- What is emitted for public keys ----------

  /** One packet for each recipient that wraps the drawn session key, and the payload sealed under it. */
  ghost predicate IsPubMessage(lib: Library, draws: Draws, data: seq<byte>, recipients: seq<seq<byte>>,
                               o: EncryptOptions, message: seq<Packet>)
  {
    exists key, payload ::
      && KeySize(o.cipher) == Some(|key|) && key == draws.sessionKey(|key|)
      && IsPayload(lib, data, o, payload)
      && |message| == |recipients| + 1
      && (forall i | 0 <= i < |recipients| ::
            message[i] == PkeskPacket(lib.wrap(recipients[i], Candidate(Some(o.cipher), key))))
      && message[|recipients|] == SealedPacket(lib.seal(o.cipher, key, payload))
  }

  lemma {:induction false} PkeskPacketAt(lib: Library, recipients: seq<seq<byte>>, session: Candidate)
    ensures |PkeskPackets(lib, recipients, session)| == |recipients|
    ensures forall i | 0 <= i < |recipients| ::
              PkeskPackets(lib, recipients, session)[i] == PkeskPacket(lib.wrap(recipients[i], session))
  {
    if recipients != [] {
      PkeskPacketAt(lib, recipients[1..], session);
    }
  }

  /** Public-key encryption emits such a message for every accepted option string and any recipients but none. */
  lemma PubEncryptMeans(lib: Library, draws: Draws, data: seq<byte>, recipients: seq<seq<byte>>, options: string,
                        text: bool)
    requires draws.Valid()
    ensures var o, message := ParseOptions(options, text), PubEncrypt(lib, draws, data, recipients, options, text);
      && (message.Some? <==> o.Some? && recipients != [])
      && (message.Some? ==> IsPubMessage(lib, draws, data, recipients, o.value, message.value))
  {
    hide ParseOptions, WritePayload, IsPayload, PkeskPackets;
    PubEncryptSucceedsIff(lib, draws, data, recipients, options, text);
    var message := PubEncrypt(lib, draws, data, recipients, options, text);
    if message.Some? {
      AcceptedIsWithinLimits(options, text);
      var o := ParseOptions(options, text).value;
      var key, payload := draws.sessionKey(KeySize(o.cipher).value), WritePayload(lib, data, o).value;
      PayloadIff(lib, data, o, payload);
      PkeskPacketAt(lib, recipients, Candidate(Some(o.cipher), key));
      assert |key| == KeySize(o.cipher).value;
    }
  }

  // ---------- What the payload holds ----------

  /** Packet i is the literal packet, or holds it compressed, and packets to be skipped are all that stand before. */
  ghost predicate FoundAt(lib: Library, packets: seq<Packet>, depth: nat, format: DataFormat, data: seq<byte>, i: nat)
    decreases depth, 0
  {
    && i < |packets|
    && (forall j | 0 <= j < i :: packets[j].OtherPacket?)
    && match packets[i]
       case LiteralPacket(f, d) => f == format && d == data
       case CompressedPacket(algorithm, body) =>
         && depth > 0
         && var inner := lib.decompress(algorithm, body);
            inner.Some? && Holds(lib, inner.value, depth - 1, format, data)
       case _ => false
  }

  /** The payload holds the literal packet, at most `depth` compressions down. */
  ghost predicate Holds(lib: Library, packets: seq<Packet>, depth: nat, format: DataFormat, data: seq<byte>)
    decreases depth, 1
  {
    exists i: nat :: FoundAt(lib, packets, depth, format, data, i)
  }

  lemma HoldsAfterSkipping(lib: Library, packets: seq<Packet>, depth: nat, format: DataFormat, data: seq<byte>)
    requires packets != [] && packets[0].OtherPacket?
    ensures Holds(lib, packets, depth, format, data) <==> Holds(lib, packets[1..], depth, format, data)
  {
    var rest := packets[1..];
    assert forall j | 0 <= j < |rest| :: rest[j] == packets[j + 1];
    if i: nat :| FoundAt(lib, packets, depth, format, data, i) {
      assert i > 0;
      assert FoundAt(lib, rest, depth, format, data, i - 1);
    }
    if i: nat :| FoundAt(lib, rest, depth, format, data, i) {
      assert FoundAt(lib, packets, depth, format, data, i + 1);
    }
  }

  lemma HoldsInFront(lib: Library, packets: seq<Packet>, depth: nat, format: DataFormat, data: seq<byte>)
    requires packets != [] && !packets[0].OtherPacket?
    ensures Holds(lib, packets, depth, format, data) <==> FoundAt(lib, packets, depth, format, data, 0)
  {
  }

  /** The code of a format that reading leaves in the cell. */
  function CodeOf(format: DataFormat): nat {
    match format
    case Binary => 1
    case Text => 2
    case Unicode => 3
    case OtherFormat(_) => 0
  }

  /** Reading returns what the payload holds, with the code of its format, whatever the cell held before. */
  lemma {:induction false} ReadPayloadIff(lib: Library, packets: seq<Packet>, cell: nat, depth: nat, data: seq<byte>,
                                         code: nat)
    ensures ReadPayload(lib, packets, cell, depth) == Some((data, code))
       <==> exists format :: Holds(lib, packets, depth, format, data) && code == CodeOf(format)
    decreases depth, |packets|
  {
    hide Holds;
    forall format
      ensures Holds(lib, packets, depth, format, data)
         <==> && packets != []
              && if packets[0].OtherPacket? then Holds(lib, packets[1..], depth, format, data)
                 else FoundAt(lib, packets, depth, format, data, 0)
    {
      if packets == [] {
        assert !Holds(lib, packets, depth, format, data) by { NothingHolds(lib, depth, format, data); }
      } else if packets[0].OtherPacket? {
        HoldsAfterSkipping(lib, packets, depth, format, data);
      } else {
        HoldsInFront(lib, packets, depth, format, data);
      }
    }
    if packets != [] {
      match packets[0]
      case LiteralPacket(format, _) =>
        assert FormatCode(format) == CodeOf(format);
      case CompressedPacket(algorithm, body) =>
        var inner := lib.decompress(algorithm, body);
        if depth > 0 && inner.Some? {
          ReadPayloadIff(lib, inner.value, cell, depth - 1, data, code);
        }
      case OtherPacket =>
        ReadPayloadIff(lib, packets[1..], cell, depth, data, code);
      case _ =>
    }
  }

  lemma NothingHolds(lib: Library, depth: nat, format: DataFormat, data: seq<byte>)
    ensures !Holds(lib, [], depth, format, data)
  {
  }

  // ---------- What decryption returns ----------

  /** The candidate, if there is one, opens the container. */
  ghost predicate OpensAs(lib: Library, body: seq<byte>, r: Option<Candidate>, payload: seq<Packet>) {
    r.Some? && r.value.algorithm.Some? && lib.open(r.value.algorithm.value, r.value.key, body) == Some(payload)
  }

  ghost predicate CannotOpen(lib: Library, body: seq<byte>, r: Option<Candidate>) {
    forall payload :: !OpensAs(lib, body, r, payload)
  }

  lemma CannotOpenIff(lib: Library, body: seq<byte>, r: Option<Candidate>)
    ensures CannotOpen(lib, body, r) <==> (r.Some? ==> !Opens(lib, body)(r.value))
  {
    if r.Some? && Opens(lib, body)(r.value) {
      assert OpensAs(lib, body, r, lib.open(r.value.algorithm.value, r.value.key, body).value);
    }
  }

  /** The payload holds the data, in a format with the given code. */
  ghost predicate IsRead(lib: Library, payload: seq<Packet>, data: seq<byte>, code: nat) {
    exists format :: Holds(lib, payload, lib.maxDepth, format, data) && code == CodeOf(format)
  }

  lemma OpenContainerIff(lib: Library, body: seq<byte>, found: Option<Candidate>, data: seq<byte>, code: nat)
    ensures OpenContainer(lib, body, found, LITERAL_UNKNOWN) == Some((data, code))
       <==> exists payload :: OpensAs(lib, body, found, payload) && IsRead(lib, payload, data, code)
  {
    hide ReadPayload, Holds;
    forall payload | OpensAs(lib, body, found, payload)
      ensures ReadPayload(lib, payload, LITERAL_UNKNOWN, lib.maxDepth) == Some((data, code))
         <==> IsRead(lib, payload, data, code)
    {
      ReadPayloadIff(lib, payload, LITERAL_UNKNOWN, lib.maxDepth, data, code);
    }
    if OpenContainer(lib, body, found, LITERAL_UNKNOWN) == Some((data, code)) {
      assert OpensAs(lib, body, found, lib.open(found.value.algorithm.value, found.value.key, body).value);
    }
  }

  /** Session key packet i opens the container under the password, and none before it does. */
  ghost predicate FirstSkesk(lib: Library, e: Envelope, password: seq<byte>, i: nat, payload: seq<Packet>)
    requires lib.Lawful()
  {
    && i < |e.skesks|
    && OpensAs(lib, e.body, DecryptSkesk(lib.keys, e.skesks[i], password), payload)
    && forall j | 0 <= j < i :: CannotOpen(lib, e.body, DecryptSkesk(lib.keys, e.skesks[j], password))
  }

  lemma FirstSkeskIff(lib: Library, e: Envelope, password: seq<byte>, payload: seq<Packet>)
    requires lib.Lawful()
    ensures OpensAs(lib, e.body, FirstAccepted(SkeskResults(lib, e.skesks, password), Opens(lib, e.body)), payload)
       <==> exists i: nat :: FirstSkesk(lib, e, password, i, payload)
  {
    hide DecryptSkesk, CannotOpen, FirstAccepted, Asked;
    var results, accepts := SkeskResults(lib, e.skesks, password), Opens(lib, e.body);
    forall r
      ensures CannotOpen(lib, e.body, r) <==> (r.Some? ==> !accepts(r.value))
    {
      CannotOpenIff(lib, e.body, r);
    }
    TrialsFindFirst(results, accepts);
    var found := FirstAccepted(results, accepts);
    forall k: nat | FirstSkesk(lib, e, password, k, payload)
      ensures k < |results| && results[k].Some? && accepts(results[k].value)
    {
    }
    if found.Some? {
      var i: nat :| IsFirstAccepted(results, accepts, i) && results[i] == found;
      forall j | 0 <= j < i
        ensures CannotOpen(lib, e.body, DecryptSkesk(lib.keys, e.skesks[j], password))
      {
        assert results[j] == DecryptSkesk(lib.keys, e.skesks[j], password);
      }
      if OpensAs(lib, e.body, found, payload) {
        assert FirstSkesk(lib, e, password, i, payload);
      }
      forall k: nat | FirstSkesk(lib, e, password, k, payload)
        ensures k == i
      {
      }
    }
  }

  /**
    Decryption by password returns the data that the container holds when it is opened by the first session key
    packet that opens it, and fails if none does or the message is malformed.
   */
  lemma SymDecryptIff(lib: Library, message: seq<Packet>, password: seq<byte>, data: seq<byte>, code: nat)
    requires lib.Lawful()
    ensures SymDecrypt(lib, message, password) == Some((data, code))
       <==> && EnvelopeOf(message).Some?
            && exists i: nat, payload ::
                 FirstSkesk(lib, EnvelopeOf(message).value, password, i, payload) && IsRead(lib, payload, data, code)
  {
    hide ReadMessage, OpenContainer, FirstAccepted, FirstSkesk, IsRead, OpensAs, EnvelopeOf, SkeskResults;
    ReadMessageOf(lib, message, Password(password));
    if EnvelopeOf(message).Some? {
      var e := EnvelopeOf(message).value;
      var found := FirstAccepted(SkeskResults(lib, e.skesks, password), Opens(lib, e.body));
      OpenContainerIff(lib, e.body, found, data, code);
      forall payload
        ensures OpensAs(lib, e.body, found, payload) <==> exists i: nat :: FirstSkesk(lib, e, password, i, payload)
      {
        FirstSkeskIff(lib, e, password, payload);
      }
    }
  }

  /** Session key packet i opens the container with key pair j, and no lexicographically earlier combination does. */
  ghost predicate FirstPkesk(lib: Library, e: Envelope, pairs: seq<seq<byte>>, i: nat, j: nat, payload: seq<Packet>) {
    && i < |e.pkesks| && j < |pairs|
    && OpensAs(lib, e.body, lib.unwrap(e.pkesks[i], pairs[j]), payload)
    && forall k, l | 0 <= k <= i && 0 <= l < |pairs| && (k < i || l < j) ::
         CannotOpen(lib, e.body, lib.unwrap(e.pkesks[k], pairs[l]))
  }

  lemma FirstPkeskIff(lib: Library, e: Envelope, pairs: seq<seq<byte>>, payload: seq<Packet>)
    ensures OpensAs(lib, e.body, FirstAccepted(PairResults(e.pkesks, pairs, lib.unwrap), Opens(lib, e.body)), payload)
       <==> exists i: nat, j: nat :: FirstPkesk(lib, e, pairs, i, j, payload)
  {
    hide CannotOpen, FirstAccepted, PairResults;
    var accepts := Opens(lib, e.body);
    forall r
      ensures CannotOpen(lib, e.body, r) <==> (r.Some? ==> !accepts(r.value))
    {
      CannotOpenIff(lib, e.body, r);
    }
    PairsFindFirst(e.pkesks, pairs, lib.unwrap, accepts);
    var found := FirstAccepted(PairResults(e.pkesks, pairs, lib.unwrap), accepts);
    forall k: nat, l: nat | FirstPkesk(lib, e, pairs, k, l, payload)
      ensures accepts(lib.unwrap(e.pkesks[k], pairs[l]).value)
    {
    }
    if found.Some? {
      var i: nat, j: nat :|
        IsFirstPair(e.pkesks, pairs, lib.unwrap, accepts, i, j) && lib.unwrap(e.pkesks[i], pairs[j]) == found;
      if OpensAs(lib, e.body, found, payload) {
        assert FirstPkesk(lib, e, pairs, i, j, payload);
      }
      forall k: nat, l: nat | FirstPkesk(lib, e, pairs, k, l, payload)
        ensures k == i && l == j
      {
      }
    }
  }

  /** The same with the key pairs of a secret key, of which there must be one. */
  lemma PubDecryptIff(lib: Library, message: seq<Packet>, pairs: seq<seq<byte>>, data: seq<byte>, code: nat)
    requires lib.Lawful()
    ensures PubDecrypt(lib, message, pairs) == Some((data, code))
       <==> && EnvelopeOf(message).Some?
            && exists i: nat, j: nat, payload ::
                 FirstPkesk(lib, EnvelopeOf(message).value, pairs, i, j, payload) && IsRead(lib, payload, data, code)
  {
    hide ReadMessage, OpenContainer, FirstAccepted, IsRead, OpensAs, EnvelopeOf, PairResults;
    ReadMessageOf(lib, message, KeyPairs(pairs));
    if EnvelopeOf(message).Some? {
      var e := EnvelopeOf(message).value;
      var found := FirstAccepted(PairResults(e.pkesks, pairs, lib.unwrap), Opens(lib, e.body));
      OpenContainerIff(lib, e.body, found, data, code);
      forall payload
        ensures OpensAs(lib, e.body, found, payload)
           <==> exists i: nat, j: nat :: FirstPkesk(lib, e, pairs, i, j, payload)
      {
        FirstPkeskIff(lib, e, pairs, payload);
      }
    }
  }

  // ---------- The text gate ----------

  /** Text passes in one of the two text formats, if it is well-formed UTF-8 without NUL, and nothing else does. */
  lemma DecryptedTextIff(data: seq<byte>, code: nat, d: DecryptOptions, text: seq<byte>)
    ensures DecryptedText(data, code, d) == Some(text)
       <==> && (code == CodeOf(Text) || code == CodeOf(Unicode))
            && Utf8.Valid(data) && 0 !in data
            && text == if d.convertCrlf then Crlf.Decode(data) else data
    ensures DecryptedText(data, code, d) == Some(text) ==> Utf8.Valid(text) && 0 !in text
  {
    hide Utf8.Valid, Crlf.Decode;
    Crlf.Utf8Kept(data);
    Crlf.OtherOctetsKept(data, 0);
  }

  /**
    The text entry points return text only: well-formed UTF-8 without NUL, from a literal packet in one of the two
    text formats, converted if the options say so; anything else is an error.
   */
  lemma TextEntryPointsIff(lib: Library, message: seq<Packet>, password: seq<byte>, pairs: seq<seq<byte>>,
                           options: string, text: seq<byte>)
    requires lib.Lawful()
    ensures var d := ParseDecryptOptions(options);
      && (PgpSymDecrypt(lib, message, password, options) == Some(text)
          <==> d.Some? && exists data, code :: SymDecrypt(lib, message, password) == Some((data, code))
                                            && IsText(data, code, d.value, text))
      && (PgpPubDecrypt(lib, message, pairs, options) == Some(text)
          <==> d.Some? && exists data, code :: PubDecrypt(lib, message, pairs) == Some((data, code))
                                            && IsText(data, code, d.value, text))
  {
    hide ParseDecryptOptions, SymDecrypt, PubDecrypt, DecryptedText;
    var d := ParseDecryptOptions(options);
    var sym, pub := SymDecrypt(lib, message, password), PubDecrypt(lib, message, pairs);
    if d.Some? && sym.Some? {
      assert sym == Some((sym.value.0, sym.value.1));
      DecryptedTextIff(sym.value.0, sym.value.1, d.value, text);
    }
    if d.Some? && pub.Some? {
      assert pub == Some((pub.value.0, pub.value.1));
      DecryptedTextIff(pub.value.0, pub.value.1, d.value, text);
    }
  }

  /** The text is what the data stands for, in a text format. */
  ghost predicate IsText(data: seq<byte>, code: nat, d: DecryptOptions, text: seq<byte>) {
    && (code == CodeOf(Text) || code == CodeOf(Unicode))
    && Utf8.Valid(data) && 0 !in data
    && text == if d.convertCrlf then Crlf.Decode(data) else data
  }

  lemma ReturnedTextIsText(lib: Library, message: seq<Packet>, password: seq<byte>, pairs: seq<seq<byte>>,
                           options: string, text: seq<byte>)
    requires lib.Lawful()
    ensures PgpSymDecrypt(lib, message, password, options) == Some(text) ==> Utf8.Valid(text) && 0 !in text
    ensures PgpPubDecrypt(lib, message, pairs, options) == Some(text) ==> Utf8.Valid(text) && 0 !in text
  {
    hide ParseDecryptOptions, SymDecrypt, PubDecrypt, DecryptedText, Utf8.Valid;
    var d := ParseDecryptOptions(options);
    var sym, pub := SymDecrypt(lib, message, password), PubDecrypt(lib, message, pairs);
    if d.Some? && sym.Some? {
      DecryptedTextIff(sym.value.0, sym.value.1, d.value, text);
    }
    if d.Some? && pub.Some? {
      DecryptedTextIff(pub.value.0, pub.value.1, d.value, text);
    }
  }

  /** The binary entry points return the data in any format; the options are checked all the same. */
  lemma BinaryEntryPointsIff(lib: Library, message: seq<Packet>, password: seq<byte>, pairs: seq<seq<byte>>,
                             options: string, data: seq<byte>)
    requires lib.Lawful()
    ensures PgpSymDecryptBytea(lib, message, password, options) == Some(data)
       <==> && ParseDecryptOptions(options).Some?
            && exists code :: SymDecrypt(lib, message, password) == Some((data, code))
    ensures PgpPubDecryptBytea(lib, message, pairs, options) == Some(data)
       <==> && ParseDecryptOptions(options).Some?
            && exists code :: PubDecrypt(lib, message, pairs) == Some((data, code))
  {
    hide ParseDecryptOptions, SymDecrypt, PubDecrypt;
    var sym, pub := SymDecrypt(lib, message, password), PubDecrypt(lib, message, pairs);
    assert sym.Some? ==> sym == Some((sym.value.0, sym.value.1));
    assert pub.Some? ==> pub == Some((pub.value.0, pub.value.1));
  }

  /** Binary data for any recipients comes back unchanged under any options, and is never taken for text. */
  lemma PubBinaryUnderAnyOptions(lib: Library, draws: Draws, data: seq<byte>, recipients: seq<seq<byte>>,
                                 pairs: seq<seq<byte>>, recipient: seq<byte>, pair: seq<byte>, options: string,
                                 other: string)
    requires lib.Lawful() && draws.Valid()
    requires ParseOptions(options, false).Some? && ParseDecryptOptions(other).Some?
    requires recipient in recipients && pair in pairs && lib.Unlocks(pair, recipient)
    ensures var message := PgpPubEncryptBytea(lib, draws, data, recipients, options);
      && message.Some? && EnvelopeOf(message.value).Some?
      && (OnlyOpens(lib, EnvelopeOf(message.value).value.body, DrawnSession(draws, options, false)) ==>
            && PgpPubDecryptBytea(lib, message.value, pairs, other) == Some(data)
            && PgpPubDecrypt(lib, message.value, pairs, other) == None)
  {
    hide ParseOptions, ParseDecryptOptions, PubDecrypt, PubEncrypt, OnlyOpens, EnvelopeOf, DrawnSession;
    PubDecryptRecovers(lib, draws, data, recipients, pairs, recipient, pair, options, false);
    AcceptedIsWithinLimits(options, false);
  }
}
