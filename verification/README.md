# A verified model of pg_crypto's OpenPGP pipeline and raw ciphers

`pg_crypto` is a PostgreSQL extension that offers the functions of pgcrypto. This project models the logic
that the extension adds around its cryptographic libraries, and proves what that logic is for.

| files | what they model |
|---|---|
| `PgpOptions`, `PgpOptionsLaws`, `PgpOptionStrings`, `PgpOptionsMeaning` | the two option parsers of the OpenPGP functions |
| `Crlf`, `Utf8` | the line-end conversion, and UTF-8 by section 4 of RFC 3629 |
| `OpenPgpTypes`, `SessionKeys`, `SessionKeysLaws`, `KeyTrials` | S2K specifiers, the session key packet, the loops that try session keys |
| `PgpMessages`, `PgpMessagesLaws`, `PgpMessagesMeaning` | `pgp_sym_encrypt`, `pgp_sym_decrypt`, `pgp_pub_encrypt` and `pgp_pub_decrypt` from option string to text |
| `Bytes`, `CipherModes`, `Pkcs7`, `RawCipher`, `RawCipherLaws`, `RawCipherMeaning` | `encrypt`, `decrypt` and their IV forms: ECB, CBC and CFB of NIST SP 800-38A, the padding of section 6.3 of RFC 5652 |
| `Armor` | the header block of ASCII armor |
| `Password`, `PasswordLaws` | `gen_salt`: cutting a hash where its salt ends |
| `Wrappers`, `RustText`, `RustTextMeaning` | `Option`, and the string operations of the Rust standard library that the parsers call |

Every error report of the extension is the value `None`; error texts are not modelled. What the libraries do
is a parameter with a hypothesis: block ciphers are keyed permutations (for CFB, any function on blocks), key
derivation is a function of specifier, password and length, compression has an inverse, an integrity-protected
container opens with the cipher and key that sealed it, a key pair unwraps what was wrapped for its recipient, the
body of ASCII armor reads back and a header line loses at most its end, and a password hash begins with the salt
that was asked for. Random draws are arguments.

Loops, in-place updates and objects of the source are methods and classes here (the CRLF loops, the parser loops,
ECB, CBC and CFB on a copied buffer, the key builder, the key trials, the shared format cell, the separator iterator). Each is
proved equal to a function, and the laws are proved about that function.

The modules named Laws relate operations to each other: round trips, invariance, locality. The modules named Meaning
say what each operation returns on every input, by tables, equations and positions that do not mention its definition.

Where documentation and code differ, the model follows the code: `docs/API.md` says that Blowfish keys are
truncated at 56 bytes, and the code also repeats keys of fewer than four bytes; the Blowfish alias `blowfish` is
accepted by `cipher-algo` but not by `s2k-cipher-algo`.

`dafny verify dfyconfig.toml` checks the whole project.

## Model

| member | source | states |
|---|---|---|
| PgpMessagesLaws.TextRoundTrip | src/pgp.rs:326-449 | for every option string and every NUL-free UTF-8 text, encryption succeeds iff the options are accepted and name one cipher or a drawn key, and decrypting with the same password and options then returns the text, whatever cipher, compression, S2K mode, session-key mode and CRLF setting |
| PgpMessagesMeaning.SymEncryptMeans | src/pgp.rs:296-371 | for every input: when encryption succeeds, and the message field by field — specifier with mode, digest, salt and count, cipher named by the packet, session key drawn or derived, encrypted key present iff drawn, literal packet with its format and converted data, compression at the given level |
| PgpMessagesMeaning.SymDecryptIff | src/pgp.rs:393-432 | for every message: decryption returns data iff the first session key packet that opens the container opens it to a payload that holds this data |
| PgpMessagesMeaning.PubEncryptMeans | src/pgp.rs:457-480 | for every input: when public-key encryption succeeds, and the message — packet i wraps the drawn session key for recipient i, and the payload is sealed under that key |
| PgpMessagesMeaning.PubDecryptIff | src/pgp.rs:504-566 | for every message: decryption returns data iff the lexicographically first packet and key pair that open the container open it to a payload that holds this data |
| PgpMessagesMeaning.TextEntryPointsIff | src/pgp.rs:282-294 | for every message: the text entry points return a text iff the options parse and the decrypted literal packet is in a text format, well-formed UTF-8 and free of NUL, and the text is its data, converted if asked for |
| PgpMessagesMeaning.ReturnedTextIsText | src/pgp.rs:439-588 | whatever the message, the text entry points return only well-formed UTF-8 without NUL |
| PgpMessagesMeaning.DecryptedTextIff | src/pgp.rs:282-294 | for every data, format and option, text passes the gate iff the format is one of the two text formats and the data, before any conversion, is well-formed UTF-8 without NUL |
| PgpMessagesMeaning.ReadPayloadIff | src/pgp.rs:427-432 | reading a payload returns the first literal packet behind packets to be skipped, through nested compression, with the code of its format, whatever the cell held before |
| PgpMessagesMeaning.PayloadIff | src/pgp.rs:296-324 | the payload is one literal packet in the format of the entry point, compressed at the given level iff an algorithm and a level above zero are set |
| PgpMessagesMeaning.BinaryEntryPointsIff | src/pgp.rs:451-455 | the binary entry points return the data of any format, and check the options all the same |
| PgpMessagesLaws.EncryptSucceedsIff | src/pgp.rs:326-371 | encryption succeeds iff the option string is accepted and it draws a session key, names no S2K cipher, or names the payload's; no later error arm is reachable |
| PgpMessagesLaws.EncryptEmits | src/pgp.rs:326-371 | the message is one session key packet, which the password turns back into exactly the payload's cipher and key, and one container sealed under them |
| PgpMessagesLaws.CipherCheckIsExact | src/pgp.rs:326-371 | for accepted options, the message that would be emitted without the cipher-equality check reads back if the check passes, and cannot be read at all if it does not and only the true cipher and key open the container |
| PgpMessagesLaws.DirectModeMessageIff | src/pgp.rs:330-359 | a message whose session key is derived from the password yields its payload if its packet names the payload's cipher, and nothing if it names another and only the true cipher and key open the container |
| PgpMessagesLaws.PayloadReadsBack | src/pgp.rs:296-324 | the payload is compressed iff an algorithm and a level above zero are set, and reads back as the converted data with its format |
| PgpMessagesLaws.DecryptRecovers | src/pgp.rs:393-432 | decryption recovers the literal body and the format code, whatever the options were |
| PgpMessagesLaws.MarkerTravels | src/pgp.rs:264-312 | the format marker that decryption sees tells binary, text and Unicode text apart as they were encrypted |
| PgpMessagesLaws.TextUnderAnyOptions | src/pgp.rs:282-294 | under any second option string, text comes back as the one conversion followed by the other undone; the NUL and UTF-8 checks never reject it, and decryption fails only on the second option string |
| PgpMessagesLaws.MismatchedConversion | src/pgp.rs:206-324 | with conversion only on encryption the text survives iff it has no LF; only on decryption, iff it has no CR LF pair; otherwise always |
| PgpMessagesLaws.BinaryUnderAnyOptions | src/pgp.rs:439-455 | binary data survives any pair of option strings, and reading it as text always fails |
| PgpMessagesLaws.TextReadAsBinary | src/pgp.rs:451-455 | text read through the binary entry point is the text itself iff nothing was converted |
| PgpMessagesLaws.ReadMessageOf | src/pgp.rs:374-432 | any list of packets, read with a password or with key pairs, opens with the first candidate that its container accepts, and fails without one or on a packet that does not belong there |
| PgpMessagesLaws.ReadWithTruth | src/pgp.rs:393-432 | if only the true cipher and key open the container, a message is read iff they are among the candidates that its packets yield |
| PgpMessagesLaws.DecryptAmongOthers | src/pgp.rs:393-414 | in any message with any session key packets in any order, one that yields the true key suffices, if no other key opens the container |
| PgpMessagesLaws.SymDecryptOrderDoesNotMatter | src/pgp.rs:393-432 | if only one candidate opens the container, neither order nor repetition of the session key packets changes what a password recovers |
| PgpMessagesLaws.PubDecryptOrderDoesNotMatter | src/pgp.rs:503-566 | with a secret key, what a message yields does not depend on the order of session key packets or key pairs, if only one candidate opens the container |
| PgpMessagesLaws.PubEncryptSucceedsIff | src/pgp.rs:457-480 | public-key encryption fails only on the option string or when there is no recipient; the S2K cipher is not checked there |
| PgpMessagesLaws.PubDecryptRecovers | src/pgp.rs:457-566 | whoever holds a key pair of one of the recipients recovers the literal body and its format, if no other session key opens the container |
| PgpMessagesLaws.PubTextUnderAnyOptions | src/pgp.rs:457-588 | text for any recipients comes back unchanged under the same option string, and under any other as the one conversion followed by the other undone |
| PgpMessagesMeaning.PubBinaryUnderAnyOptions | src/pgp.rs:574-599 | binary data for any recipients survives any pair of option strings, and reading it as text always fails |
| PgpMessages.PasswordHelper.Inspect | src/pgp.rs:379-382 | the shared cell changes exactly on literal packets |
| PgpMessagesLaws.LastLiteralDecides | src/pgp.rs:270-280 | after any list of packets the cell holds the format of the last literal packet, or its old value if there is none |
| PgpMessages.InspectLiteralFormat | src/pgp.rs:270-280 | one packet sets the cell to its format code if it is a literal packet, and leaves it alone otherwise |
| PgpMessages.PasswordHelper.Decrypt | src/pgp.rs:394-413 | the loop finds the first accepted candidate and asks about no later one |
| PgpMessages.KeyHelper.Inspect | src/pgp.rs:489-492 | the key helper's cell changes exactly on literal packets |
| PgpMessages.KeyHelper.Decrypt | src/pgp.rs:504-525 | the nested loops find the first accepted candidate, packets first, and ask about no later one |
| PgpMessages.RunReadPayload | src/pgp.rs:427-431 | the walk through the payload, with the cell updated on the way, returns the data and format of the payload's literal packet |
| PgpMessages.RunOpenContainer | src/pgp.rs:423-431 | the payload is read under the session key that the helper found, or decryption fails |
| PgpMessages.RunSymDecrypt | src/pgp.rs:416-432 | decryption through the helper and the shared cell is the function that the laws speak of |
| PgpMessages.RunPubDecrypt | src/pgp.rs:528-566 | the walk through the message with the key helper and the shared cell is the function that the laws speak of |
| PgpMessages.RunPgpPubDecrypt | src/pgp.rs:579-588 | the text entry point for secret keys is the function that the laws speak of |
| PgpMessages.RunDecryptedText | src/pgp.rs:282-294 | the text gate, conversion included, is the function that the laws speak of |
| PgpMessages.RunWritePayload | src/pgp.rs:296-324 | the payload writer, conversion loop included, is the function that the laws speak of |
| PgpMessages.RunSymEncrypt | src/pgp.rs:326-371 | the sequential encryption is the function that the laws speak of |
| PgpMessages.RunPgpSymDecrypt | src/pgp.rs:444-449 | the text entry point is the function that the laws speak of |
| KeyTrials.TryPacket | src/pgp.rs:512-519 | the inner loop tries every key pair on one packet, in order, up to the first success |
| KeyTrials.TryPairs | src/pgp.rs:511-524 | the nested loops try packets and key pairs in lexicographic order, up to the first success |
| KeyTrials.TrialsFindFirst | src/pgp.rs:401-412 | if any candidate is accepted, there is a position that holds the found one and before which all were rejected, and exactly the candidates up to it are asked about; otherwise nothing is found and all are asked about |
| KeyTrials.PairsFindFirst | src/pgp.rs:511-524 | the nested loops find the candidate of the lexicographically first pair of positions whose candidate is accepted, if there is one |
| KeyTrials.PairResultsAt | src/pgp.rs:511-524 | packet i with key pair j is trial number i times the number of pairs, plus j |
| KeyTrials.PairResultsLength | src/pgp.rs:511-524 | there are as many trials as packets times key pairs |
| KeyTrials.OrderDoesNotMatter | src/pgp.rs:401-412 | if all accepted candidates are the same, order and repetition of the packets do not matter |
| KeyTrials.PairOrderDoesNotMatter | src/pgp.rs:511-524 | if only the true key is accepted, neither the order of packets nor of key pairs matters |
| SessionKeysLaws.SessionKeyModeRecovers | src/pgp.rs:335-355 | with an encrypted key, any pair of ciphers recovers the payload's cipher and key through zero-IV CFB over algorithm octet and key (section 5.3 of RFC 4880) |
| SessionKeysLaws.DecryptSkeskIff | src/pgp.rs:401-406 | a foreign packet yields a candidate iff its cipher is known and the candidate is the derived key, or the algorithm and key that encipher to the packet's octets |
| SessionKeysLaws.SpecifierIff | src/pgp.rs:176-204 | for options within the limits, the specifier is the one of the mode, with digest, drawn salt, and the given count or 65536 plus four little-endian octets modulo 188417 |
| SessionKeysLaws.AlgorithmRow | src/pgp.rs:71-82 | octet, key size and block size of each cipher that the options select (section 9.2 of RFC 4880) |
| SessionKeysLaws.AcceptedOptionsGiveS2k | src/pgp.rs:176-204 | accepted options never reach the unreachable arm; the specifier has their mode and digest, and the coded count is in range and within one sixteenth of the given or drawn count |
| SessionKeysLaws.NeighbourIsClose | src/pgp.rs:146-155 | a coded count next to a requested one differs from it by at most one sixteenth (section 3.7.1.3 of RFC 4880) |
| SessionKeysLaws.EveryCountHasNeighbour | src/pgp.rs:151-153 | every count that the option accepts lies between two coded counts |
| SessionKeysLaws.DecodedCountEnds | src/pgp.rs:151-153 | the first and the last code stand for the two limits of the option |
| SessionKeysLaws.CodeIsInRange | src/pgp.rs:151-153 | every coded count lies between the limits of the option |
| SessionKeys.DefaultCount | src/pgp.rs:176-182 | the default count lies within 65536 and 253952 whatever is drawn |
| PgpOptionsMeaning.ParseOptionsIff | src/pgp.rs:59-174 | an option string gives certain options iff every item names an option and a value from the tables, each field is what the last value for it says or its default, and a count stands with mode 3 only |
| PgpOptionsMeaning.ParseDecryptOptionsMeans | src/pgp.rs:235-262 | decryption accepts an option string iff every item has a known name, and a Boolean where the value is looked at; conversion is on iff its last value is one |
| PgpOptionsMeaning.CipherIff | src/pgp.rs:71-82 | a value is a cipher iff, white space and letter case apart, it is one of the cipher's names, aliases included |
| PgpOptionsMeaning.S2kCipherIff | src/pgp.rs:137-145 | the same for the S2K cipher, which has fewer names |
| PgpOptionsMeaning.DigestIff | src/pgp.rs:130-136 | the same for the digest |
| PgpOptionsMeaning.CompressionIff | src/pgp.rs:101-108 | a value is a compression iff it is 0, 1 or 2, white space apart |
| PgpOptionsMeaning.BooleanIff | src/pgp.rs:61-68 | a value is a switch iff it is 0 or 1, white space apart |
| PgpOptionsMeaning.LevelIff | src/pgp.rs:109-116 | a value is a level iff it is a decimal number up to 9, a plus sign and zeros in front allowed |
| PgpOptionsMeaning.ModeIff | src/pgp.rs:121-129 | the same for the modes 0, 1 and 3 |
| PgpOptionsMeaning.CountIff | src/pgp.rs:146-155 | the same for counts from 1024 to 65011712 |
| PgpOptionsMeaning.ReadItemIff | src/pgp.rs:94-98 | an item gives a value to an option iff it is the option's name, white space and letter case apart, an equals sign and the value |
| PgpOptionsMeaning.ItemsOfPiece | src/pgp.rs:89-93 | a piece between commas is one item, trimmed, unless it is white space |
| PgpOptionsLaws.ParseOptionsMeans | src/pgp.rs:84-174 | the fold over the items comes to this: acceptance is item by item plus the final check of the count, and each field is what the value parser of its option makes of the last value given |
| PgpOptionsLaws.OnlyLastOccurrencesMatter | src/pgp.rs:84-174 | two option strings, of which both or neither have an item that is unacceptable by itself, have the same outcome if they have the same last value for every option |
| PgpOptionsLaws.PermutedOptions | src/pgp.rs:84-174 | options with different normalised names may be permuted, success and failure included |
| PgpOptionsLaws.AcceptedIsWithinLimits | src/pgp.rs:109-155 | accepted options have level at most 9, mode 0, 1 or 3, a count only with mode 3 and in range, and a known cipher |
| PgpOptionStrings.ParserImage | src/pgp.rs:84-174 | conversely, every combination of values within these limits is what some option string means; the string is built from an independent table of names and values |
| PgpOptionStrings.ParseWritten | src/pgp.rs:89-97 | any list of settings without commas, and without equals signs in the names, is parsed from its comma-separated form as these settings in order, white space and letter case apart |
| PgpOptionStrings.DecimalParses | src/pgp.rs:110-150 | every number within the limit of its type is read from its decimal form |
| PgpOptionsLaws.ParsersAgree | src/pgp.rs:235-262 | decryption accepts every option string that encryption accepts, and reads the same `convert-crlf` |
| PgpOptionsLaws.CommaComposes | src/pgp.rs:89-92 | a comma between two option strings continues both parsers where the first string left them |
| PgpOptions.ItemsConcat | src/pgp.rs:89-93 | the items around a comma are those before it and those after it |
| PgpOptions.RunParseOptions | src/pgp.rs:84-174 | the parser loop is the function that the laws speak of |
| PgpOptions.RunParseDecryptOptions | src/pgp.rs:235-262 | the same for decryption |
| RustTextMeaning.LowercaseIff | src/pgp.rs:98 | folding exchanges the twenty-six ASCII letters and keeps every other character |
| RustTextMeaning.TrimIff | src/pgp.rs:92 | trimming yields the one part that stands between white space and has none at its ends |
| RustTextMeaning.SplitIff | src/pgp.rs:89-91 | splitting yields the one list of strings without the separator that gives the string when joined |
| RustTextMeaning.UnsignedIff | src/pgp.rs:110-112 | a number is read from its decimal forms, with a plus sign and zeros in front, and from nothing else |
| Crlf.EncodeLoop | src/pgp.rs:206-215 | the loop is the recursive encoder |
| Crlf.DecodeLoop | src/pgp.rs:217-228 | the loop with its moving index is the recursive decoder |
| Crlf.EncodeParts | src/pgp.rs:206-215 | encoding works octet by octet: 0A becomes 0D 0A, every other octet stays |
| Crlf.DecodeParts | src/pgp.rs:217-228 | decoding works part by part as long as no 0D is cut off its 0A |
| Crlf.DecodePart | src/pgp.rs:217-228 | 0D 0A becomes 0A, every single octet stays |
| Crlf.DecodeEncode | src/pgp.rs:206-228 | decoding undoes encoding for all bytes, CR and CR LF included |
| Crlf.EncodeDecodeIff | src/pgp.rs:206-228 | encoding gives back what was decoded iff every LF directly follows a CR |
| Crlf.EncodeIsLongest | src/pgp.rs:206-228 | of all strings that decode to one text, the encoded text is the unique longest |
| Crlf.EncodeIsIdentityIff | src/pgp.rs:206-215 | encoding changes nothing iff there is no LF |
| Crlf.DecodeIsIdentityIff | src/pgp.rs:217-228 | decoding changes nothing iff there is no CR LF pair |
| Crlf.Utf8Kept | src/pgp.rs:282-294 | both directions preserve and reflect well-formed UTF-8 |
| Crlf.OtherOctetsKept | src/pgp.rs:289-291 | both directions preserve and reflect freedom from NUL, and from every octet but CR |
| Utf8.ValidIffEncoded | src/pgp.rs:292-293 | the recogniser accepts exactly the encodings of sequences of scalar values (section 3 of RFC 3629) |
| Utf8.ValidAroundAscii | src/pgp.rs:292-293 | an ASCII octet cuts well-formed UTF-8 into well-formed halves, and joins them |
| RawCipherMeaning.EncryptIff | src/raw.rs:32-253 | for every type, key, IV and data, encryption returns y iff the blocks of y satisfy the equations of the mode named, for the padded data, the IV cut or zero filled, and the cipher under the prepared key |
| RawCipherMeaning.DecryptIff | src/raw.rs:32-253 | decryption returns data iff the ciphertext satisfies the same equations for it |
| RawCipherMeaning.UnknownTypeFails | src/raw.rs:32-55 | a string that spells no cipher type is an error in both directions |
| RawCipherMeaning.KeyedIff | src/raw.rs:70-159 | the cipher is keyed with the AES key zero filled to the smallest of 16, 24 and 32 bytes, or the Blowfish key cut to 56 bytes or repeated to at least four |
| RawCipherMeaning.EncipheredIff | src/raw.rs:79-130 | the three modes are the only solution of their block equations (sections 6.1 to 6.3 of NIST SP 800-38A) |
| RawCipherLaws.RoundTrip | src/raw.rs:225-253 | encryption fails only on type or key; its result decrypts to the data, and its length is the padded length under PKCS and the data's length otherwise |
| RawCipherLaws.DecryptIffEncrypt | src/raw.rs:225-253 | decryption yields data from a ciphertext iff encryption yields that ciphertext from the data |
| RawCipherLaws.Converse | src/raw.rs:104-223 | whatever decryption accepts is the encryption of what it returns |
| RawCipherLaws.PkcsBijection | src/raw.rs:104-223 | with PKCS padding, encryption is a bijection from all strings onto those that decryption accepts, and the empty ciphertext is rejected |
| RawCipherLaws.EcbErrorLocality | src/raw.rs:118-121 | one changed ciphertext block changes that plaintext block and no other |
| RawCipherLaws.CbcErrorLocality | src/raw.rs:107-113 | one changed ciphertext block changes its plaintext block, moves the next by exactly the difference, and nothing else |
| RawCipherLaws.CfbErrorLocality | src/raw.rs:123-127 | one changed ciphertext block moves its plaintext block by exactly the difference and the next by the difference of the two blocks enciphered, so that a full next block always changes; nothing else does |
| RawCipherLaws.CbcOtherIv | src/raw.rs:107-113 | another IV moves the first plaintext block by the difference of the normalised IVs, and nothing else |
| RawCipherLaws.SameIv | src/raw.rs:57-62 | IVs whose zero-padded or truncated forms agree act alike, and ECB ignores the IV |
| RawCipherLaws.WithoutIv | src/raw.rs:235-243 | the functions without IV are those with an IV of any number of zeros |
| RawCipherLaws.SameAesKey | src/raw.rs:70-77 | AES keys of one length tier act alike when they agree up to trailing zeros |
| RawCipherLaws.AesKeyFillsSmallestSize | src/raw.rs:70-77 | the AES key is the given one, filled with zeros to the smallest key size that holds it; more than 32 bytes fail |
| RawCipherLaws.BlowfishKeyStream | src/raw.rs:150-159 | the built key has 4 to 56 bytes, and a schedule that cycles through it reads what it would read from the cut key |
| RawCipherLaws.EqualBlowfishKeysIff | src/raw.rs:150-159 | two built keys are equal iff they are equally long and the given keys, cut and cycled, agree |
| RawCipherLaws.SameBlowfishKey | src/raw.rs:150-159 | such Blowfish keys act alike in both directions |
| RawCipherLaws.CutOrRepeatedBlowfishKey | src/raw.rs:150-159 | a Blowfish key acts like its first 56 bytes, and one of fewer than four like its repetition |
| RawCipherLaws.ParseTypeIffSpells | src/raw.rs:32-55 | a string denotes a cipher type iff, letter case apart, it is an algorithm name, a mode suffix and a padding suffix |
| RawCipherLaws.AliasesAgree | src/raw.rs:225-233 | aliases and letter case never change a result |
| RawCipher.FixedArray | src/raw.rs:57-62 | the filled array is the input cut or filled with zeros |
| RawCipher.BuildBlowfishKey | src/raw.rs:150-159 | the growing loop repeats a short key whole, and terminates |
| RawCipher.RunCipher | src/raw.rs:79-130 | one keyed cipher in either direction, in place on a copy of the data that is padded before or unpadded after, is the function that the laws speak of |
| RawCipher.RunTransform | src/raw.rs:132-233 | the dispatch on type, key and direction, over the buffers, is the function that the laws speak of |
| CipherModes.CfbEncryptInPlace | src/raw.rs:95-99 | the in-place loop is full-block CFB encryption, the short last segment included |
| CipherModes.CfbDecryptInPlace | src/raw.rs:123-127 | the in-place loop is full-block CFB decryption, each ciphertext block kept before it is overwritten |
| CipherModes.CbcEncryptInPlace | src/raw.rs:82-87 | the in-place loop with its register is CBC encryption |
| CipherModes.CbcDecryptInPlace | src/raw.rs:107-114 | the in-place loop is CBC decryption, each ciphertext block kept before it is overwritten |
| CipherModes.EcbEncryptInPlace | src/raw.rs:88-94 | the in-place loop is ECB encryption |
| CipherModes.EcbDecryptInPlace | src/raw.rs:115-122 | the in-place loop is ECB decryption |
| CipherModes.CfbDecryptUndoesEncrypt | src/raw.rs:95-127 | CFB decryption undoes encryption using the forward cipher only |
| CipherModes.CfbEncryptUndoesDecrypt | src/raw.rs:95-127 | and conversely |
| CipherModes.CbcDecryptUndoesEncrypt | src/raw.rs:82-113 | CBC decryption undoes encryption |
| CipherModes.CbcEncryptUndoesDecrypt | src/raw.rs:82-113 | and conversely |
| CipherModes.EcbInverse | src/raw.rs:88-122 | ECB encryption and decryption are inverse |
| CipherModes.EcbDecryptBlocks | src/raw.rs:115-122 | ECB decrypts each block by itself |
| CipherModes.CbcDecryptBlocks | src/raw.rs:107-114 | plaintext block i is the deciphered block i combined with ciphertext block i - 1 or the IV |
| CipherModes.CfbDecryptBlocks | src/raw.rs:123-127 | plaintext block i is block i combined with the enciphered block i - 1 or IV |
| Pkcs7.UnpadIffPad | src/raw.rs:108-110 | unpadding accepts exactly the padded strings, and takes the padding off |
| RawCipherMeaning.PaddedIff | src/raw.rs:83-85 | padding adds 1 to n bytes, each of which says how many, up to whole blocks |
| Bytes.XorBits | src/raw.rs:95-99 | the exclusive-or sets exactly the bits set in one operand only |
| Bytes.BlockAt | src/raw.rs:82-130 | block i stands i blocks from the front, and only the last may be shorter |
| Armor.HeadersReadBackIff | src/armor.rs:58-80 | a list of headers comes back from its header block iff no key holds the separator, no key or value holds a newline, and the reader's trimming leaves the lines alone: none of these checks can be dropped |
| Armor.ArmorRoundTrip | src/armor.rs:33-108 | `dearmor` gives back the data that `armor` accepted, and `pgp_armor_headers` the keys in order with what trimming leaves of the values, if it leaves the separators; the headers are unchanged iff trimming leaves their lines alone |
| Armor.ArmorIff | src/armor.rs:33-80 | header arrays are accepted iff they are equally long, without NULL, all ASCII without newline, and no key holds a colon before a space; the text is then the first line, the headers and the data |
| Armor.PrintParts | src/armor.rs:10-26 | each header adds one line, in order, in front of the empty line |
| Armor.WhiteSpaceTrimmed | src/armor.rs:72-77 | if the reader trims white space off line ends, which the checks of values do not exclude, a header is unchanged iff its value ends in something else, and its separator is left iff its value has something else |
| Armor.ReadLineOfHeaderLine | src/armor.rs:65-67 | the first separator of a printed line ends the key, also when the key ends in a colon |
| Armor.PrintLoop | src/armor.rs:10-26 | the writing loop prints the header block |
| Armor.ReadLoop | src/armor.rs:97-108 | the reading loop, whatever it trims off the end of each line, reads the headers up to the empty line |
| PasswordLaws.CutLeavesSalt | src/password.rs:14-37 | in all six formats, with and without a `rounds=` field, cutting a salt followed by any digest leaves the salt |
| PasswordLaws.CutBcrypt | src/password.rs:16 | whichever of the two bcrypt variants the library writes, the salt says `2a` |
| PasswordLaws.CutShaCryptEnds | src/password.rs:23-34 | any SHA-crypt string is cut behind its third `$`, or the fourth behind a `rounds=` field, and not at all with fewer than three |
| PasswordLaws.CutMd5Ends | src/password.rs:19-22 | any md5crypt string is cut behind the first `$` after its identifier, and not at all without one |
| PasswordLaws.ReplaceFirst | src/password.rs:16 | the first `$2b$` becomes `$2a$`, and replacing goes on behind it |
| PasswordLaws.CutFailsIff | src/password.rs:14-37 | cutting fails exactly on strings too short for their format and on unknown algorithms |
| PasswordLaws.RoundsFieldSeenIff | src/password.rs:28-32 | the test for a `rounds=` field succeeds iff the salt has one: a salt's own text never looks like it |
| PasswordLaws.CutIsIdempotent | src/password.rs:14-37 | cutting a salt again changes nothing |
| PasswordLaws.RenderReadsBack | src/password.rs:14-37 | a salt string determines its format, rounds and text |
| PasswordLaws.HashDeterminesSalt | src/password.rs:14-37 | a hash of a known algorithm determines its salt and its digest |
| PasswordLaws.GenSaltGivesSalt | src/password.rs:39-135 | a salt is generated iff the algorithm is known and takes the given count, or its default for zero; it is the one that the library used, of this algorithm and saying this count |
| PasswordLaws.AcceptedCountsAreWritable | src/password.rs:50-127 | every accepted iteration count has a well-formed salt that says it |
| PasswordLaws.ExtendedDesLimitIsExact | src/password.rs:75-79 | an odd extended DES count is accepted iff four salt characters can say it |
| Password.CutShaCrypt | src/password.rs:23-34 | stepping the separator iterator cuts where the laws say |
| Password.SeparatorIterator.Next | src/password.rs:24-29 | the iterator yields the positions of `$` in order, and then nothing |

## Left out

- Error texts, and which of several errors is reported first: every error is `None`.
- Encryption of unaligned data with `pad:none`: the library decides it, so `RawCipher.Transform` requires whole blocks there; on decryption the model reports the error as the code does.
- The insides of AES, Blowfish, the hashes, S2K hashing, compression and public-key operations.
- The integrity-protected container beyond opening with the sealing cipher and key; its random prefix and its modification detection are inside it.
- Packet framing and message grammar: a message is a list of packets, session key packets up to one container; the payload is walked to its first literal packet, through nested compression up to a depth that is a parameter.
- The selection of recipients from a certificate, its check for secret keys, and the unlocking of secret keys: `pub_encrypt` starts from the list of recipients, `pub_decrypt` from the list of unlocked key pairs; the public-key operations are parameters.
- Ciphers that no option can select (Twofish, Camellia): they have no key size here, so a foreign session key packet that names one yields no candidate.
- `pgp_key_id`.
- The choice between the two coded counts next to a requested one, which is the library's; both are covered.
- Armor.ArmorRoundTrip: the reader is modelled on what `armor` writes; radix-64 and the checksum are inside the parameter for the body, and text before the first line or other kinds of armor, which the library's tolerant reader accepts, are not modelled.
- Armor.ReadLoop: lines end in LF and may be cut at the end by any function; the library's reader, which is not part of this model, may also skip or stop at lines that no writer emits.
- The dimension checks of SQL arrays, and the SQL glue in general.
- `crypt` and the parsing of salts inside the password library; salt strings are those that the library emits, so characters are octets.
- `hash.rs`, `random.rs` and `modern.rs`, which dispatch to library functions.
- The distribution of random draws, and secrecy.
- Atomic memory ordering: the format cell is used by one thread.
- Padding inside the library: it is a function that is applied to the data before the copy is made, and to the buffer's contents afterwards.
