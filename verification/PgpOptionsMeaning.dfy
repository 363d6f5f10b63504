/** The names and values of the options by tables, and what the two parsers make of a string in these terms. */
module PgpOptionsMeaning {
  import opened OpenPgpTypes
  import opened PgpOptions
  import opened PgpOptionsLaws
  import opened PgpOptionStrings
  import opened RustText
  import opened RustTextMeaning
  import opened Wrappers

  // ---------- Words ----------

  /** The text is one of the words, white space around it apart. */
  ghost predicate SaysExactly(text: string, words: seq<string>) {
    exists word <- words :: IsTrimmed(text, word)
  }

  /** The text is one of the words, white space around it and letter case apart. */
  ghost predicate Says(text: string, words: seq<string>) {
    exists word, t :: word in words && IsTrimmed(text, t) && SameUpToCase(t, word)
  }

  lemma SaysExactlyIff(text: string, words: seq<string>)
    ensures Trim(text) in words <==> SaysExactly(text, words)
  {
    forall word
      ensures Trim(text) == word <==> IsTrimmed(text, word)
    {
      TrimIff(text, word);
    }
  }

  lemma SaysIff(text: string, words: seq<string>)
    ensures Normalized(text) in words <==> Says(text, words)
  {
    hide ToAsciiLowercase, Trim, IsTrimmed, SameUpToCase;
    TrimIff(text, Trim(text));
    LowercaseIff(Trim(text), Normalized(text));
    if word, t :| word in words && IsTrimmed(text, t) && SameUpToCase(t, word) {
      TrimIff(text, t);
      LowercaseIff(t, word);
    }
  }

  /** The text is a number in decimal, white space around it apart. */
  ghost predicate SaysNumber(text: string, n: nat) {
    exists t :: IsTrimmed(text, t) && WritesNumber(t, n)
  }

  lemma SaysNumberIff(text: string, max: nat, n: nat)
    ensures ParseUnsigned(Trim(text), max) == Some(n) <==> n <= max && SaysNumber(text, n)
  {
    hide Trim, ParseUnsigned, IsTrimmed, WritesNumber;
    UnsignedIff(Trim(text), max, n);
    TrimIff(text, Trim(text));
    forall t | IsTrimmed(text, t)
      ensures t == Trim(text)
    {
      TrimIff(text, t);
    }
  }

  // ---------- The values of each option ----------

  function CipherNames(cipher: SymmetricAlgorithm): seq<string> {
    match cipher
    case Blowfish => ["bf", "blowfish"]
    case Aes128 => ["aes", "aes128"]
    case Aes192 => ["aes192"]
    case Aes256 => ["aes256"]
    case TripleDes => ["3des"]
    case Cast5 => ["cast5"]
    case Unknown(_) => []
  }

  /** The S2K cipher has fewer: neither the two older ciphers nor the long name of Blowfish. */
  function S2kCipherNames(cipher: SymmetricAlgorithm): seq<string> {
    match cipher
    case Blowfish => ["bf"]
    case TripleDes | Cast5 | Unknown(_) => []
    case _ => CipherNames(cipher)
  }

  function CompressionNames(compression: CompressionAlgorithm): seq<string> {
    match compression
    case Uncompressed => ["0"]
    case Zip => ["1"]
    case Zlib => ["2"]
  }

  function DigestNames(digest: HashAlgorithm): seq<string> {
    match digest
    case Md5 => ["md5"]
    case Sha1 => ["sha1"]
  }

  lemma CipherIff(value: string, cipher: SymmetricAlgorithm)
    ensures ParseCipher(value) == Some(cipher) <==> Says(value, CipherNames(cipher))
  {
    SaysIff(value, CipherNames(cipher));
    hide Says, Normalized;
  }

  lemma S2kCipherIff(value: string, cipher: SymmetricAlgorithm)
    ensures ParseS2kCipher(value) == Some(cipher) <==> Says(value, S2kCipherNames(cipher))
  {
    SaysIff(value, S2kCipherNames(cipher));
    hide Says, Normalized;
  }

  lemma DigestIff(value: string, digest: HashAlgorithm)
    ensures ParseDigest(value) == Some(digest) <==> Says(value, DigestNames(digest))
  {
    SaysIff(value, DigestNames(digest));
    hide Says, Normalized;
  }

  lemma CompressionIff(value: string, compression: CompressionAlgorithm)
    ensures ParseCompression(value) == Some(compression) <==> SaysExactly(value, CompressionNames(compression))
  {
    SaysExactlyIff(value, CompressionNames(compression));
    hide SaysExactly, Trim;
  }

  lemma BooleanIff(value: string, b: bool)
    ensures ParseBoolean(value) == Some(b) <==> SaysExactly(value, if b then ["1"] else ["0"])
  {
    SaysExactlyIff(value, if b then ["1"] else ["0"]);
    hide SaysExactly, Trim;
  }

  lemma IsBooleanIff(value: string)
    ensures ParseBoolean(value).Some? <==> SaysExactly(value, ["0", "1"])
  {
    SaysExactlyIff(value, ["0", "1"]);
    hide SaysExactly, Trim;
  }

  lemma LevelIff(value: string, level: nat)
    ensures ParseLevel(value) == Some(level) <==> level <= 9 && SaysNumber(value, level)
  {
    SaysNumberIff(value, 255, level);
    hide SaysNumber, Trim, ParseUnsigned;
  }

  lemma ModeIff(value: string, mode: nat)
    ensures ParseMode(value) == Some(mode) <==> mode in {0, 1, 3} && SaysNumber(value, mode)
  {
    SaysNumberIff(value, 255, mode);
    hide SaysNumber, Trim, ParseUnsigned;
  }

  lemma CountIff(value: string, count: nat)
    ensures ParseCount(value) == Some(count) <==> 1024 <= count <= 65011712 && SaysNumber(value, count)
  {
    SaysNumberIff(value, 0xFFFF_FFFF, count);
    hide SaysNumber, Trim, ParseUnsigned;
  }

  // ---------- Items ----------

  /** A string without comma is one item, its text trimmed, unless it is white space. */
  lemma ItemsOfPiece(piece: string, t: string)
    requires ',' !in piece && IsTrimmed(piece, t)
    ensures Items(piece) == if t == "" then [] else [t]
  {
    TrimIff(piece, t);
    SplitIff(piece, ',', [piece]);
    assert Split(piece, ',') == [piece];
    assert TrimmedItems([piece][1..]) == [];
  }

  lemma ReadNameIff(name: string, option: OptionName)
    ensures ReadName(name) == Some(option) <==> name == NameWord(option)
  {
    NameWordReads(option);
    if ReadName(name) == Some(option) {
      SameOptionSameSpelling(name, NameWord(option));
    }
  }

  /** The item is the name of the option, an equals sign and the value. */
  ghost predicate ItemSays(item: string, option: OptionName, value: string) {
    exists name :: '=' !in name && item == name + ['='] + value && Says(name, [NameWord(option)])
  }

  lemma ReadItemIff(item: string, option: OptionName, value: string)
    ensures ReadItem(item) == Some((option, value)) <==> ItemSays(item, option, value)
  {
    hide Normalized, ReadName, Says, NameWord, SplitOnce;
    forall name
      ensures ReadName(Normalized(name)) == Some(option) <==> Says(name, [NameWord(option)])
    {
      ReadNameIff(Normalized(name), option);
      SaysIff(name, [NameWord(option)]);
    }
    forall name | '=' !in name && item == name + ['='] + value
      ensures SplitOnce(item, '=') == Some((name, value))
    {
      SplitOnceAt(name, '=', value);
    }
    if ReadItem(item) == Some((option, value)) {
      SplitOnceParts(item, '=');
    }
  }

  lemma SplitOnceParts(s: string, c: char)
    requires SplitOnce(s, c).Some?
    ensures var (left, right) := SplitOnce(s, c).value; c !in left && s == left + [c] + right
  {
  }

  // ---------- Encryption ----------

  /** What each option takes. */
  ghost predicate ValueSays(option: OptionName, value: string) {
    match option
    case CipherAlgo => exists cipher :: Says(value, CipherNames(cipher))
    case CompressAlgo => SaysExactly(value, ["0", "1", "2"])
    case CompressLevel => exists level :: level <= 9 && SaysNumber(value, level)
    case UnicodeMode | ConvertCrlf | SessKey | IgnoreCipherFailure => SaysExactly(value, ["0", "1"])
    case S2kMode => SaysNumber(value, 0) || SaysNumber(value, 1) || SaysNumber(value, 3)
    case S2kDigestAlgo => Says(value, ["md5", "sha1"])
    case S2kCipherAlgo => exists cipher :: Says(value, S2kCipherNames(cipher))
    case S2kCount => exists count :: 1024 <= count <= 65011712 && SaysNumber(value, count)
    case DisableMdc => SaysExactly(value, ["0"])
  }

  lemma CipherValueIff(value: string)
    ensures ParseCipher(value).Some? <==> ValueSays(CipherAlgo, value)
    ensures ParseS2kCipher(value).Some? <==> ValueSays(S2kCipherAlgo, value)
  {
    hide ParseCipher, ParseS2kCipher, Says;
    forall cipher
      ensures ParseCipher(value) == Some(cipher) <==> Says(value, CipherNames(cipher))
      ensures ParseS2kCipher(value) == Some(cipher) <==> Says(value, S2kCipherNames(cipher))
    {
      CipherIff(value, cipher);
      S2kCipherIff(value, cipher);
    }
    hide CipherNames, S2kCipherNames;
    assert ParseCipher(value).Some? ==> Says(value, CipherNames(ParseCipher(value).value));
    assert ParseS2kCipher(value).Some? ==> Says(value, S2kCipherNames(ParseS2kCipher(value).value));
  }

  lemma NumberValueIff(value: string)
    ensures ParseLevel(value).Some? <==> ValueSays(CompressLevel, value)
    ensures ParseMode(value).Some? <==> ValueSays(S2kMode, value)
    ensures ParseCount(value).Some? <==> ValueSays(S2kCount, value)
  {
    hide ParseLevel, ParseMode, ParseCount, SaysNumber;
    forall n: nat
      ensures ParseLevel(value) == Some(n) <==> n <= 9 && SaysNumber(value, n)
      ensures ParseMode(value) == Some(n) <==> n in {0, 1, 3} && SaysNumber(value, n)
      ensures ParseCount(value) == Some(n) <==> 1024 <= n <= 65011712 && SaysNumber(value, n)
    {
      LevelIff(value, n);
      ModeIff(value, n);
      CountIff(value, n);
    }
    assert ParseLevel(value).Some? ==> SaysNumber(value, ParseLevel(value).value);
    assert ParseMode(value).Some? ==> SaysNumber(value, ParseMode(value).value);
    assert ParseCount(value).Some? ==> SaysNumber(value, ParseCount(value).value);
  }

  lemma WordValueIff(value: string)
    ensures ParseCompression(value).Some? <==> ValueSays(CompressAlgo, value)
    ensures ParseDigest(value).Some? <==> ValueSays(S2kDigestAlgo, value)
    ensures ParseBoolean(value) == Some(false) <==> ValueSays(DisableMdc, value)
  {
    SaysExactlyIff(value, ["0", "1", "2"]);
    SaysIff(value, ["md5", "sha1"]);
    BooleanIff(value, false);
    hide SaysExactly, Says, Trim, Normalized;
  }

  lemma ValueAcceptedIff(option: OptionName, value: string)
    ensures ValueAccepted(option, value) <==> ValueSays(option, value)
  {
    hide ParseCipher, ParseCompression, ParseLevel, ParseBoolean, ParseMode, ParseDigest, ParseS2kCipher, ParseCount;
    CipherValueIff(value);
    NumberValueIff(value);
    WordValueIff(value);
    IsBooleanIff(value);
    hide Says, SaysExactly, SaysNumber;
  }

  ghost predicate ItemAccepted(item: string) {
    exists option: OptionName, value :: ItemSays(item, option, value) && ValueSays(option, value)
  }

  lemma AcceptedIff(item: string)
    ensures Accepted(item) <==> ItemAccepted(item)
  {
    hide ReadItem, ItemSays, ValueAccepted, ValueSays;
    var read := ReadItem(item);
    if read.Some? {
      ReadItemIff(item, read.value.0, read.value.1);
      ValueAcceptedIff(read.value.0, read.value.1);
    }
    forall option: OptionName, value | ItemSays(item, option, value)
      ensures read == Some((option, value))
    {
      ReadItemIff(item, option, value);
    }
  }

  /** The field is what the last value given for its option says, or its default without one. */
  ghost predicate Describes(items: seq<string>, o: EncryptOptions) {
    && (match LastValue(items, CipherAlgo)
        case None => o.cipher == Aes128
        case Some(v) => Says(v, CipherNames(o.cipher)))
    && (match LastValue(items, CompressAlgo)
        case None => o.compression == Uncompressed
        case Some(v) => SaysExactly(v, CompressionNames(o.compression)))
    && (match LastValue(items, CompressLevel)
        case None => o.compressionLevel == 6
        case Some(v) => SaysNumber(v, o.compressionLevel))
    && (match LastValue(items, S2kMode)
        case None => o.s2kMode == 3
        case Some(v) => SaysNumber(v, o.s2kMode))
    && (match LastValue(items, S2kCount)
        case None => o.s2kCount == None
        case Some(v) => o.s2kCount.Some? && SaysNumber(v, o.s2kCount.value))
    && (match LastValue(items, S2kDigestAlgo)
        case None => o.s2kDigest == Sha1
        case Some(v) => Says(v, DigestNames(o.s2kDigest)))
    && (match LastValue(items, S2kCipherAlgo)
        case None => o.s2kCipher == None
        case Some(v) => o.s2kCipher.Some? && Says(v, S2kCipherNames(o.s2kCipher.value)))
    && IsOn(items, UnicodeMode, o.unicodeMode)
    && IsOn(items, ConvertCrlf, o.convertCrlf)
    && IsOn(items, SessKey, o.useSessionKey)
  }

  /** A switch is off unless the last value given for it is one. */
  ghost predicate IsOn(items: seq<string>, option: OptionName, b: bool) {
    var last := LastValue(items, option);
    b <==> last.Some? && SaysExactly(last.value, ["1"])
  }

  lemma {:induction false} LastValueIsAccepted(items: seq<string>, option: OptionName)
    requires AllAccepted(items)
    ensures LastValue(items, option).Some? ==> ValueAccepted(option, LastValue(items, option).value)
  {
    hide ReadItem, ValueAccepted;
    if items != [] {
      var init, last := items[..|items| - 1], items[|items| - 1];
      assert Accepted(last);
      LastValueIsAccepted(init, option);
    }
  }

  lemma SwitchMeans(items: seq<string>, option: OptionName, b: bool)
    requires AllAccepted(items) && option in {UnicodeMode, ConvertCrlf, SessKey}
    ensures IsOn(items, option, b)
       <==> b == OrDefault(match LastValue(items, option) case None => None case Some(v) => ParseBoolean(v), false)
  {
    hide LastValue, ParseBoolean, SaysExactly, AllAccepted;
    LastValueIsAccepted(items, option);
    var last := LastValue(items, option);
    if last.Some? {
      BooleanIff(last.value, true);
    }
  }

  lemma AlgorithmsMean(items: seq<string>, o: EncryptOptions, textInput: bool)
    requires AllAccepted(items)
    ensures var m := Meaning(items, textInput);
      && (o.cipher == m.cipher
          <==> match LastValue(items, CipherAlgo)
               case None => o.cipher == Aes128
               case Some(v) => Says(v, CipherNames(o.cipher)))
      && (o.compression == m.compression
          <==> match LastValue(items, CompressAlgo)
               case None => o.compression == Uncompressed
               case Some(v) => SaysExactly(v, CompressionNames(o.compression)))
      && (o.s2kDigest == m.s2kDigest
          <==> match LastValue(items, S2kDigestAlgo)
               case None => o.s2kDigest == Sha1
               case Some(v) => Says(v, DigestNames(o.s2kDigest)))
      && (o.s2kCipher == m.s2kCipher
          <==> match LastValue(items, S2kCipherAlgo)
               case None => o.s2kCipher == None
               case Some(v) => o.s2kCipher.Some? && Says(v, S2kCipherNames(o.s2kCipher.value)))
  {
    hide LastValue, AllAccepted, ParseCipher, ParseCompression, ParseDigest, ParseS2kCipher, Says, SaysExactly;
    hide CipherNames, CompressionNames, DigestNames, S2kCipherNames;
    forall option
      ensures LastValue(items, option).Some? ==> ValueAccepted(option, LastValue(items, option).value)
    {
      LastValueIsAccepted(items, option);
    }
    forall v: string
      ensures ParseCipher(v) == Some(o.cipher) <==> Says(v, CipherNames(o.cipher))
      ensures ParseCompression(v) == Some(o.compression) <==> SaysExactly(v, CompressionNames(o.compression))
      ensures ParseDigest(v) == Some(o.s2kDigest) <==> Says(v, DigestNames(o.s2kDigest))
      ensures o.s2kCipher.Some? ==>
                (ParseS2kCipher(v) == o.s2kCipher <==> Says(v, S2kCipherNames(o.s2kCipher.value)))
    {
      CipherIff(v, o.cipher);
      CompressionIff(v, o.compression);
      DigestIff(v, o.s2kDigest);
      if o.s2kCipher.Some? {
        S2kCipherIff(v, o.s2kCipher.value);
      }
    }
  }

  lemma NumbersMean(items: seq<string>, o: EncryptOptions, textInput: bool)
    requires AllAccepted(items)
    ensures var m := Meaning(items, textInput);
      && (o.compressionLevel == m.compressionLevel
          <==> match LastValue(items, CompressLevel)
               case None => o.compressionLevel == 6
               case Some(v) => SaysNumber(v, o.compressionLevel))
      && (o.s2kMode == m.s2kMode
          <==> match LastValue(items, S2kMode)
               case None => o.s2kMode == 3
               case Some(v) => SaysNumber(v, o.s2kMode))
      && (o.s2kCount == m.s2kCount
          <==> match LastValue(items, S2kCount)
               case None => o.s2kCount == None
               case Some(v) => o.s2kCount.Some? && SaysNumber(v, o.s2kCount.value))
  {
    hide LastValue, AllAccepted, ParseLevel, ParseMode, ParseCount, SaysNumber;
    forall option
      ensures LastValue(items, option).Some? ==> ValueAccepted(option, LastValue(items, option).value)
    {
      LastValueIsAccepted(items, option);
    }
    forall v: string, n: nat, k: nat | SaysNumber(v, n) && SaysNumber(v, k)
      ensures n == k
    {
      SaysOneNumber(v, n, k);
    }
    forall v: string
      ensures ParseLevel(v).Some? ==> SaysNumber(v, ParseLevel(v).value)
      ensures ParseMode(v).Some? ==> SaysNumber(v, ParseMode(v).value)
      ensures ParseCount(v).Some? ==> SaysNumber(v, ParseCount(v).value)
    {
      if ParseLevel(v).Some? {
        LevelIff(v, ParseLevel(v).value);
      }
      if ParseMode(v).Some? {
        ModeIff(v, ParseMode(v).value);
      }
      if ParseCount(v).Some? {
        CountIff(v, ParseCount(v).value);
      }
    }
  }

  lemma SaysOneNumber(v: string, n: nat, k: nat)
    requires SaysNumber(v, n) && SaysNumber(v, k)
    ensures n == k
  {
    hide Trim, ParseUnsigned, SaysNumber;
    var max := if n < k then k else n;
    SaysNumberIff(v, max, n);
    SaysNumberIff(v, max, k);
  }

  lemma SwitchesMean(items: seq<string>, o: EncryptOptions, textInput: bool)
    requires AllAccepted(items)
    ensures var m := Meaning(items, textInput);
      && (o.unicodeMode == m.unicodeMode <==> IsOn(items, UnicodeMode, o.unicodeMode))
      && (o.convertCrlf == m.convertCrlf <==> IsOn(items, ConvertCrlf, o.convertCrlf))
      && (o.useSessionKey == m.useSessionKey <==> IsOn(items, SessKey, o.useSessionKey))
  {
    hide LastValue, AllAccepted, ParseBoolean, IsOn;
    SwitchMeans(items, UnicodeMode, o.unicodeMode);
    SwitchMeans(items, ConvertCrlf, o.convertCrlf);
    SwitchMeans(items, SessKey, o.useSessionKey);
  }

  lemma DescribesIff(items: seq<string>, o: EncryptOptions, textInput: bool)
    requires AllAccepted(items)
    ensures o == Meaning(items, textInput) <==> Describes(items, o) && o.textInput == textInput
  {
    assert Meaning(items, textInput).textInput == textInput;
    hide LastValue, AllAccepted, Meaning, IsOn, Says, SaysExactly, SaysNumber;
    hide CipherNames, CompressionNames, DigestNames, S2kCipherNames;
    AlgorithmsMean(items, o, textInput);
    NumbersMean(items, o, textInput);
    SwitchesMean(items, o, textInput);
    SameFields(o, Meaning(items, textInput));
  }

  /**
    What encryption makes of an option string, by the tables: it is accepted exactly when every item names an option
    and a value that the option takes, and a count stands with mode 3 only; every field is then as described.
   */
  lemma ParseOptionsIff(options: string, textInput: bool, o: EncryptOptions)
    ensures ParseOptions(options, textInput) == Some(o)
       <==> && (forall item <- Items(options) :: ItemAccepted(item))
            && Describes(Items(options), o) && o.textInput == textInput
            && (o.s2kCount.Some? ==> o.s2kMode == 3)
  {
    hide ParseOptions, Items, ItemAccepted, Accepted, Meaning, Describes;
    forall item
      ensures Accepted(item) <==> ItemAccepted(item)
    {
      AcceptedIff(item);
    }
    ParseOptionsMeans(options, textInput);
    if AllAccepted(Items(options)) {
      DescribesIff(Items(options), o, textInput);
    }
  }

  lemma SameFields(o: EncryptOptions, m: EncryptOptions)
    ensures o == m
       <==> && o.cipher == m.cipher && o.compression == m.compression && o.compressionLevel == m.compressionLevel
            && o.textInput == m.textInput && o.unicodeMode == m.unicodeMode && o.convertCrlf == m.convertCrlf
            && o.s2kMode == m.s2kMode && o.s2kCount == m.s2kCount && o.s2kDigest == m.s2kDigest
            && o.s2kCipher == m.s2kCipher && o.useSessionKey == m.useSessionKey
  {
  }

  // ---------- Decryption ----------

  /** A known name, with a Boolean where decryption looks at the value. */
  ghost predicate DecryptItemAccepted(item: string) {
    exists option: OptionName, value ::
      && ItemSays(item, option, value)
      && (option in {ConvertCrlf, IgnoreCipherFailure} ==> SaysExactly(value, ["0", "1"]))
  }

  lemma EncryptionOnlyIff(name: string)
    ensures IsEncryptionOnly(name)
       <==> ReadName(name).Some? && ReadName(name).value !in {ConvertCrlf, IgnoreCipherFailure}
  {
    if ReadName(name).Some? {
      NamesAgree(name);
    }
    assert IsEncryptionOnly(name) <==> MatchesAny(ENCRYPTION_ONLY, name);
    if IsEncryptionOnly(name) {
      hide IsEncryptionOnly, ReadName;
      var k := PatternMatched(ENCRYPTION_ONLY, name);
      var option := OptionIgnored(k);
      ReadNameIff(name, option);
    }
  }

  lemma OptionIgnored(k: nat) returns (option: OptionName)
    requires k < |ENCRYPTION_ONLY|
    ensures ENCRYPTION_ONLY[k] == NameWord(option) && option !in {ConvertCrlf, IgnoreCipherFailure}
  {
    option := [CipherAlgo, CompressAlgo, CompressLevel, DisableMdc, SessKey, S2kMode, S2kCount, S2kDigestAlgo,
               S2kCipherAlgo, UnicodeMode][k];
  }

  lemma {:induction false} PatternMatched(patterns: seq<string>, s: string) returns (k: nat)
    requires MatchesAny(patterns, s)
    ensures k < |patterns| && patterns[k] == s
  {
    if patterns[0] == s {
      k := 0;
    } else {
      k := PatternMatched(patterns[1..], s);
      k := k + 1;
    }
  }

  /** What decryption makes of an item that names an option, and that it accepts no other. */
  lemma DecryptItemMeans(parsed: DecryptOptions, item: string)
    ensures ParseDecryptItem(parsed, item)
         == match ReadItem(item)
            case None => None
            case Some((ConvertCrlf, value)) =>
              (match ParseBoolean(value) case None => None case Some(b) => Some(DecryptOptions(b)))
            case Some((IgnoreCipherFailure, value)) => if ParseBoolean(value).Some? then Some(parsed) else None
            case Some((_, _)) => Some(parsed)
  {
    hide Normalized, ReadName, SplitOnce, ParseBoolean, NameWord, IsEncryptionOnly;
    if SplitOnce(item, '=').Some? {
      var n := Normalized(SplitOnce(item, '=').value.0);
      EncryptionOnlyIff(n);
      ReadNameIff(n, ConvertCrlf);
      ReadNameIff(n, IgnoreCipherFailure);
      assert NameWord(ConvertCrlf) == "convert-crlf" && NameWord(IgnoreCipherFailure) == "ignore-cipher-failure" by {
        NamesOfBoth();
      }
    }
  }

  lemma NamesOfBoth()
    ensures NameWord(ConvertCrlf) == "convert-crlf" && NameWord(IgnoreCipherFailure) == "ignore-cipher-failure"
  {
  }

  lemma DecryptItemAcceptedIff(item: string)
    ensures DecryptItemAccepted(item)
       <==> && ReadItem(item).Some?
            && var (option, value) := ReadItem(item).value;
               option in {ConvertCrlf, IgnoreCipherFailure} ==> ParseBoolean(value).Some?
  {
    hide ReadItem, ItemSays, ParseBoolean, SaysExactly;
    var read := ReadItem(item);
    if read.Some? {
      ReadItemIff(item, read.value.0, read.value.1);
      IsBooleanIff(read.value.1);
    }
    forall option: OptionName, value | ItemSays(item, option, value)
      ensures read == Some((option, value))
    {
      ReadItemIff(item, option, value);
    }
  }

  ghost predicate AllDecryptAccepted(items: seq<string>) {
    forall item <- items :: DecryptItemAccepted(item)
  }

  lemma {:induction false} ParseDecryptItemsMeans(items: seq<string>)
    ensures ParseDecryptItems(DecryptOptions(false), items)
         == if !AllDecryptAccepted(items) then None
            else
              match LastValue(items, ConvertCrlf)
              case None => Some(DecryptOptions(false))
              case Some(value) => (match ParseBoolean(value) case None => None case Some(b) => Some(DecryptOptions(b)))
  {
    hide ReadItem, ParseDecryptItem, ParseBoolean, DecryptItemAccepted;
    if items != [] {
      var init, last := items[..|items| - 1], items[|items| - 1];
      assert items == init + [last];
      ParseDecryptItemsMeans(init);
      ParseDecryptItemsConcat(DecryptOptions(false), init, [last]);
      LastValueOfOneMore(init, last, ConvertCrlf);
      DecryptItemAcceptedIff(last);
      var before := ParseDecryptItems(DecryptOptions(false), init);
      if before.Some? {
        DecryptItemMeans(before.value, last);
        assert ParseDecryptItems(before.value, [last]) == ParseDecryptItem(before.value, last);
      }
      assert AllDecryptAccepted(items) <==> AllDecryptAccepted(init) && DecryptItemAccepted(last);
      if AllDecryptAccepted(items) && LastValue(init, ConvertCrlf).Some? {
        LastIsAccepted(init);
      }
    }
  }

  /**
    The decryption options are accepted exactly when every item has a known name, and a Boolean where it is looked
    at; the conversion is then the last value given for it, and off without one.
   */
  lemma ParseDecryptOptionsMeans(options: string)
    ensures var parsed, last := ParseDecryptOptions(options), LastValue(Items(options), ConvertCrlf);
      && (parsed.Some? <==> AllDecryptAccepted(Items(options)))
      && (parsed.Some? ==>
            (parsed.value.convertCrlf <==> last.Some? && SaysExactly(last.value, ["1"])))
  {
    hide Items, ParseDecryptItems, SaysExactly, DecryptItemAccepted;
    ParseDecryptItemsMeans(Items(options));
    var last := LastValue(Items(options), ConvertCrlf);
    if last.Some? {
      BooleanIff(last.value, true);
      if AllDecryptAccepted(Items(options)) {
        LastIsAccepted(Items(options));
      }
    }
  }

  lemma {:induction false} LastIsAccepted(items: seq<string>)
    requires AllDecryptAccepted(items)
    requires LastValue(items, ConvertCrlf).Some?
    ensures ParseBoolean(LastValue(items, ConvertCrlf).value).Some?
  {
    hide ReadItem, ParseBoolean, DecryptItemAccepted;
    var init, last := items[..|items| - 1], items[|items| - 1];
    DecryptItemAcceptedIff(last);
    if !(ReadItem(last).Some? && ReadItem(last).value.0 == ConvertCrlf) {
      LastIsAccepted(init);
    }
  }
}
