/** Writing options as an option string; which options can be written at all. */
module PgpOptionStrings {
  import opened OpenPgpTypes
  import opened PgpOptions
  import opened PgpOptionsLaws
  import opened RustText
  import opened Wrappers

  // ---------- Strings that trimming, folding and splitting leave alone ----------

  predicate IsPlain(s: string) {
    s != "" && forall i | 0 <= i < |s| :: 'a' <= s[i] <= 'z' || '0' <= s[i] <= '9' || s[i] == '-'
  }

  lemma PlainIsNormalized(s: string)
    requires IsPlain(s)
    ensures Trim(s) == s && Normalized(s) == s
    ensures ',' !in s && '=' !in s
  {
    assert !IsWhitespace(s[0]) && !IsWhitespace(s[|s| - 1]);
    assert ToAsciiLowercase(s) == s;
  }

  datatype Setting = Setting(name: string, value: string) {
    /** The item that is written splits into name and value again. */
    predicate Writable() {
      ',' !in name && '=' !in name && ',' !in value
    }

    function Written(): string {
      name + ['='] + value
    }
  }

  function Written(settings: seq<Setting>): string
    requires settings != []
  {
    if |settings| == 1 then settings[0].Written()
    else settings[0].Written() + [','] + Written(settings[1..])
  }

  lemma SettingIsOneItem(s: Setting)
    requires s.Writable()
    ensures Items(s.Written()) == [TrimStart(s.name) + ['='] + TrimEnd(s.value)]
    ensures SplitOnce(Items(s.Written())[0], '=') == Some((TrimStart(s.name), TrimEnd(s.value)))
  {
    var item := s.Written();
    assert ',' !in item;
    assert Split(item, ',') == [item];
    TrimAround(s.name, '=', s.value);
    assert TrimmedItems([item][1..]) == [];
    TrimStartIsPart(s.name, '=');
    SplitOnceAt(TrimStart(s.name), '=', TrimEnd(s.value));
  }

  /** Setting what a name stands for, white space and letter case apart. */
  function Set(parsed: EncryptOptions, s: Setting): Option<EncryptOptions> {
    var option :- ReadName(Normalized(s.name));
    SetOption(parsed, option, s.value)
  }

  lemma SetOptionTrims(parsed: EncryptOptions, option: OptionName, value: string)
    ensures SetOption(parsed, option, TrimEnd(value)) == SetOption(parsed, option, value)
  {
    TrimAbsorbs(value);
    hide Trim, TrimEnd;
  }

  function SetAll(parsed: EncryptOptions, settings: seq<Setting>): Option<EncryptOptions>
    decreases |settings|
  {
    if settings == [] then Some(parsed)
    else
      var next :- Set(parsed, settings[0]);
      SetAll(next, settings[1..])
  }

  lemma ParseSetting(parsed: EncryptOptions, s: Setting)
    requires s.Writable()
    ensures ParseItems(parsed, Items(s.Written())) == Set(parsed, s)
  {
    hide SetOption, ReadName, SplitOnce, Trim, TrimStart, TrimEnd, Items;
    SettingIsOneItem(s);
    TrimAbsorbs(s.name);
    var items := Items(s.Written());
    assert items[1..] == [];
    assert ParseItems(parsed, items) == ParseItem(parsed, items[0]);
    if ReadName(Normalized(s.name)).Some? {
      SetOptionTrims(parsed, ReadName(Normalized(s.name)).value, s.value);
    }
  }

  /** Any list of settings, written one after the other, is parsed as these settings. */
  lemma {:induction false} ParseWritten(parsed: EncryptOptions, settings: seq<Setting>)
    requires settings != [] && forall s <- settings :: s.Writable()
    ensures ParseItems(parsed, Items(Written(settings))) == SetAll(parsed, settings)
    decreases |settings|
  {
    hide Set, ParseItem, Items, Setting.Writable, Setting.Written;
    ParseSetting(parsed, settings[0]);
    if |settings| > 1 {
      var rest := settings[1..];
      CommaComposes(settings[0].Written(), Written(rest), parsed, DecryptOptions(false));
      var next := Set(parsed, settings[0]);
      if next.Some? {
        ParseWritten(next.value, rest);
      }
    }
  }

  // ---------- Numbers ----------

  lemma DecimalParses(n: nat, max: nat)
    requires n <= max
    ensures IsPlain(Decimal(n)) && ParseUnsigned(Decimal(n), max) == Some(n)
  {
    DecimalReadsBack(n);
  }

  // ---------- The settings that stand for given options ----------

  function CipherWord(cipher: SymmetricAlgorithm): string {
    match cipher
    case Blowfish => "bf"
    case Aes128 => "aes128"
    case Aes192 => "aes192"
    case Aes256 => "aes256"
    case TripleDes => "3des"
    case Cast5 => "cast5"
    case Unknown(_) => "unknown"
  }

  function CompressionWord(compression: CompressionAlgorithm): string {
    match compression
    case Uncompressed => "0"
    case Zip => "1"
    case Zlib => "2"
  }

  function DigestWord(digest: HashAlgorithm): string {
    match digest
    case Md5 => "md5"
    case Sha1 => "sha1"
  }

  function BooleanWord(b: bool): string {
    if b then "1" else "0"
  }

  function Settings(o: EncryptOptions): seq<Setting> {
    [Setting(NameWord(CipherAlgo), CipherWord(o.cipher))]
    + ([Setting(NameWord(CompressAlgo), CompressionWord(o.compression))]
    + ([Setting(NameWord(CompressLevel), Decimal(o.compressionLevel))]
    + ([Setting(NameWord(UnicodeMode), BooleanWord(o.unicodeMode))]
    + ([Setting(NameWord(ConvertCrlf), BooleanWord(o.convertCrlf))]
    + ([Setting(NameWord(S2kMode), Decimal(o.s2kMode))]
    + ([Setting(NameWord(S2kDigestAlgo), DigestWord(o.s2kDigest))]
    + ([Setting(NameWord(SessKey), BooleanWord(o.useSessionKey))]
    + OptionalSettings(o))))))))
  }

  function OptionalSettings(o: EncryptOptions): seq<Setting> {
    (if o.s2kCount.Some? then [Setting(NameWord(S2kCount), Decimal(o.s2kCount.value))] else []) + CipherSetting(o)
  }

  function CipherSetting(o: EncryptOptions): seq<Setting> {
    if o.s2kCipher.Some? then [Setting(NameWord(S2kCipherAlgo), CipherWord(o.s2kCipher.value))] else []
  }

  lemma SetAllStep(parsed: EncryptOptions, s: Setting, rest: seq<Setting>, next: EncryptOptions)
    requires s.Writable() && Set(parsed, s) == Some(next)
    requires forall r <- rest :: r.Writable()
    ensures SetAll(parsed, [s] + rest) == SetAll(next, rest)
    ensures forall r <- [s] + rest :: r.Writable()
  {
    assert ([s] + rest)[1..] == rest;
  }

  lemma NumbersParse(o: EncryptOptions)
    requires WithinLimits(o)
    ensures var v := Decimal(o.compressionLevel); IsPlain(v) && ParseLevel(v) == Some(o.compressionLevel)
    ensures var v := Decimal(o.s2kMode); IsPlain(v) && ParseMode(v) == Some(o.s2kMode)
    ensures o.s2kCount.Some? ==>
              var v := Decimal(o.s2kCount.value); IsPlain(v) && ParseCount(v) == Some(o.s2kCount.value)
  {
    hide Decimal, ParseUnsigned, Trim, Normalized;
    DecimalParses(o.compressionLevel, 255);
    PlainIsNormalized(Decimal(o.compressionLevel));
    DecimalParses(o.s2kMode, 255);
    PlainIsNormalized(Decimal(o.s2kMode));
    if o.s2kCount.Some? {
      DecimalParses(o.s2kCount.value, 0xFFFF_FFFF);
      PlainIsNormalized(Decimal(o.s2kCount.value));
    }
  }

  lemma CipherWordParses(cipher: SymmetricAlgorithm)
    requires !cipher.Unknown?
    ensures var v := CipherWord(cipher); IsPlain(v) && ParseCipher(v) == Some(cipher)
    ensures cipher in {Blowfish, Aes128, Aes192, Aes256} ==> ParseS2kCipher(CipherWord(cipher)) == Some(cipher)
  {
    hide Normalized;
    PlainIsNormalized(CipherWord(cipher));
  }

  lemma OtherWordsParse(compression: CompressionAlgorithm, digest: HashAlgorithm, b: bool)
    ensures var v := CompressionWord(compression); IsPlain(v) && ParseCompression(v) == Some(compression)
    ensures var v := DigestWord(digest); IsPlain(v) && ParseDigest(v) == Some(digest)
    ensures var v := BooleanWord(b); IsPlain(v) && ParseBoolean(v) == Some(b)
  {
    hide Normalized, Trim;
    PlainIsNormalized(CompressionWord(compression));
    PlainIsNormalized(DigestWord(digest));
    PlainIsNormalized(BooleanWord(b));
  }

  function NameWord(option: OptionName): string {
    match option
    case CipherAlgo => "cipher-algo"
    case CompressAlgo => "compress-algo"
    case CompressLevel => "compress-level"
    case UnicodeMode => "unicode-mode"
    case ConvertCrlf => "convert-crlf"
    case S2kMode => "s2k-mode"
    case S2kDigestAlgo => "s2k-digest-algo"
    case S2kCipherAlgo => "s2k-cipher-algo"
    case S2kCount => "s2k-count"
    case SessKey => "sess-key"
    case DisableMdc => "disable-mdc"
    case IgnoreCipherFailure => "ignore-cipher-failure"
  }

  lemma NameWordReads(option: OptionName)
    ensures ReadName(NameWord(option)) == Some(option)
  {
    var i := ArmOf(option);
    assert OPTION_NAMES[i] == (NameWord(option), option);
    forall j | 0 <= j < i
      ensures OPTION_NAMES[j].0 != OPTION_NAMES[i].0
    {
      NamesAreDistinct(j, i);
    }
    LookupOfArm(OPTION_NAMES, i);
  }

  lemma NameWordIsPlain(option: OptionName)
    ensures IsPlain(NameWord(option))
  {
    hide IsPlain, NameWord;
    if option in {CipherAlgo, CompressAlgo, CompressLevel, UnicodeMode, ConvertCrlf, SessKey} {
      GeneralNameIsPlain(option);
    } else if option in {DisableMdc, IgnoreCipherFailure} {
      IgnoredNameIsPlain(option);
    } else {
      S2kNameIsPlain(option);
    }
  }

  lemma GeneralNameIsPlain(option: OptionName)
    requires option in {CipherAlgo, CompressAlgo, CompressLevel, UnicodeMode, ConvertCrlf, SessKey}
    ensures IsPlain(NameWord(option))
  {
  }

  lemma IgnoredNameIsPlain(option: OptionName)
    requires option in {DisableMdc, IgnoreCipherFailure}
    ensures IsPlain(NameWord(option))
  {
  }

  lemma S2kNameIsPlain(option: OptionName)
    requires option in {S2kMode, S2kDigestAlgo, S2kCipherAlgo, S2kCount}
    ensures IsPlain(NameWord(option))
  {
  }

  // ---------- Exactly the options within the limits can be written ----------

  /** Setting one option with the word that stands for the wanted value. */
  lemma SetWord(parsed: EncryptOptions, option: OptionName, value: string)
    requires IsPlain(value)
    ensures Setting(NameWord(option), value).Writable()
    ensures Set(parsed, Setting(NameWord(option), value)) == SetOption(parsed, option, value)
  {
    hide NameWord, ReadName;
    NameWordReads(option);
    NameWordIsPlain(option);
    PlainIsNormalized(NameWord(option));
    PlainIsNormalized(value);
  }

  lemma OptionalSettingsSet(o: EncryptOptions, parsed: EncryptOptions)
    requires WithinLimits(o)
    requires parsed == o.(s2kCount := None, s2kCipher := None)
    ensures forall s <- OptionalSettings(o) :: s.Writable()
    ensures SetAll(parsed, OptionalSettings(o)) == Some(o)
  {
    hide ParseCipher, ParseS2kCipher, ParseCount, Decimal, CipherWord, NameWord, Set, IsPlain, SetAll, Setting.Writable;
    var next := parsed.(s2kCount := o.s2kCount);
    var cipher := CipherSetting(o);
    CipherSettingSets(o, next);
    if o.s2kCount.Some? {
      NumbersParse(o);
      var all := SetAllWord(parsed, S2kCount, Decimal(o.s2kCount.value), cipher, next);
    } else {
      assert OptionalSettings(o) == cipher;
    }
  }

  lemma CipherSettingSets(o: EncryptOptions, parsed: EncryptOptions)
    requires WithinLimits(o)
    requires parsed == o.(s2kCipher := None)
    ensures forall s <- CipherSetting(o) :: s.Writable()
    ensures SetAll(parsed, CipherSetting(o)) == Some(o)
  {
    hide ParseCipher, ParseS2kCipher, CipherWord, NameWord, Set, IsPlain, Setting.Writable;
    if o.s2kCipher.Some? {
      CipherWordParses(o.s2kCipher.value);
      var all := SetAllWord(parsed, S2kCipherAlgo, CipherWord(o.s2kCipher.value), [], o);
    }
  }

  /** The written settings, set one after the other on any options, give the wanted ones. */
  lemma SettingsSet(o: EncryptOptions)
    requires WithinLimits(o)
    ensures forall s <- Settings(o) :: s.Writable()
    ensures SetAll(Defaults(o.textInput), Settings(o)) == Some(o)
  {
    hide ParseCipher, ParseCompression, ParseLevel, ParseBoolean, ParseMode, ParseDigest, ParseS2kCipher, ParseCount;
    hide Decimal, CipherWord, CompressionWord, DigestWord, BooleanWord, NameWord;
    hide Set, SetAll, OptionalSettings, Setting.Writable, IsPlain;
    NumbersParse(o);
    CipherWordParses(o.cipher);
    OtherWordsParse(o.compression, o.s2kDigest, o.unicodeMode);
    OtherWordsParse(o.compression, o.s2kDigest, o.convertCrlf);
    OtherWordsParse(o.compression, o.s2kDigest, o.useSessionKey);
    var p0 := Defaults(o.textInput);
    var p1 := p0.(cipher := o.cipher);
    var p2 := p1.(compression := o.compression);
    var p3 := p2.(compressionLevel := o.compressionLevel);
    var p4 := p3.(unicodeMode := o.unicodeMode);
    var p5 := p4.(convertCrlf := o.convertCrlf);
    var p6 := p5.(s2kMode := o.s2kMode);
    var p7 := p6.(s2kDigest := o.s2kDigest);
    var p8 := p7.(useSessionKey := o.useSessionKey);
    OptionalSettingsSet(o, p8);
    var rest := OptionalSettings(o);
    rest := SetAllWord(p7, SessKey, BooleanWord(o.useSessionKey), rest, p8);
    rest := SetAllWord(p6, S2kDigestAlgo, DigestWord(o.s2kDigest), rest, p7);
    rest := SetAllWord(p5, S2kMode, Decimal(o.s2kMode), rest, p6);
    rest := SetAllWord(p4, ConvertCrlf, BooleanWord(o.convertCrlf), rest, p5);
    rest := SetAllWord(p3, UnicodeMode, BooleanWord(o.unicodeMode), rest, p4);
    rest := SetAllWord(p2, CompressLevel, Decimal(o.compressionLevel), rest, p3);
    rest := SetAllWord(p1, CompressAlgo, CompressionWord(o.compression), rest, p2);
    rest := SetAllWord(p0, CipherAlgo, CipherWord(o.cipher), rest, p1);
  }

  lemma SetAllWord(parsed: EncryptOptions, option: OptionName, value: string, rest: seq<Setting>, next: EncryptOptions)
    returns (all: seq<Setting>)
    requires IsPlain(value) && SetOption(parsed, option, value) == Some(next)
    requires forall r <- rest :: r.Writable()
    ensures all == [Setting(NameWord(option), value)] + rest
    ensures SetAll(parsed, all) == SetAll(next, rest)
    ensures forall r <- all :: r.Writable()
  {
    hide Setting.Writable, Set, SetOption;
    SetWord(parsed, option, value);
    all := [Setting(NameWord(option), value)] + rest;
    SetAllStep(parsed, all[0], rest, next);
  }

  /** The options that some option string stands for are exactly those within the limits. */
  lemma ParserImage(o: EncryptOptions)
    ensures (exists options :: ParseOptions(options, o.textInput) == Some(o)) <==> WithinLimits(o)
  {
    hide ParseItems, Items, SetAll, Settings, Written, Setting.Writable;
    if WithinLimits(o) {
      SettingsSet(o);
      assert Settings(o) != [] by { SettingsNotEmpty(o); }
      ParseWritten(Defaults(o.textInput), Settings(o));
      assert ParseOptions(Written(Settings(o)), o.textInput) == Some(o);
    }
    forall options | ParseOptions(options, o.textInput) == Some(o)
      ensures WithinLimits(o)
    {
      AcceptedIsWithinLimits(options, o.textInput);
    }
  }

  lemma SettingsNotEmpty(o: EncryptOptions)
    ensures Settings(o) != []
  {
  }
}
