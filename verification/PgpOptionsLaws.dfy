/** What an accepted option string means, and how the two parsers agree. */
module PgpOptionsLaws {
  import opened OpenPgpTypes
  import opened PgpOptions
  import opened RustText
  import opened Wrappers

  // ---------- The last occurrence of each name decides ----------

  /** The value of the last item that names the option. */
  function LastValue(items: seq<string>, option: OptionName): Option<string> {
    if items == [] then None
    else
      var last := ReadItem(items[|items| - 1]);
      if last.Some? && last.value.0 == option then Some(last.value.1)
      else LastValue(items[..|items| - 1], option)
  }

  /** Whether the option takes the value, whatever the other options are. */
  predicate ValueAccepted(option: OptionName, value: string) {
    match option
    case CipherAlgo => ParseCipher(value).Some?
    case CompressAlgo => ParseCompression(value).Some?
    case CompressLevel => ParseLevel(value).Some?
    case UnicodeMode | ConvertCrlf | SessKey | IgnoreCipherFailure => ParseBoolean(value).Some?
    case S2kMode => ParseMode(value).Some?
    case S2kDigestAlgo => ParseDigest(value).Some?
    case S2kCipherAlgo => ParseS2kCipher(value).Some?
    case S2kCount => ParseCount(value).Some?
    case DisableMdc => ParseBoolean(value) == Some(false)
  }

  predicate Accepted(item: string) {
    var read := ReadItem(item);
    read.Some? && ValueAccepted(read.value.0, read.value.1)
  }

  predicate AllAccepted(items: seq<string>) {
    forall item <- items :: Accepted(item)
  }

  function OrDefault<T>(parsed: Option<T>, default: T): T {
    if parsed.Some? then parsed.value else default
  }

  /** The options a list of items stands for: every field read off the last item that names it. */
  function Meaning(items: seq<string>, textInput: bool): EncryptOptions {
    EncryptOptions(
      OrDefault(match LastValue(items, CipherAlgo) case None => None case Some(v) => ParseCipher(v), Aes128),
      OrDefault(match LastValue(items, CompressAlgo) case None => None case Some(v) => ParseCompression(v),
                Uncompressed),
      OrDefault(match LastValue(items, CompressLevel) case None => None case Some(v) => ParseLevel(v), 6),
      textInput,
      OrDefault(match LastValue(items, UnicodeMode) case None => None case Some(v) => ParseBoolean(v), false),
      OrDefault(match LastValue(items, ConvertCrlf) case None => None case Some(v) => ParseBoolean(v), false),
      OrDefault(match LastValue(items, S2kMode) case None => None case Some(v) => ParseMode(v), 3),
      match LastValue(items, S2kCount) case None => None case Some(v) => ParseCount(v),
      OrDefault(match LastValue(items, S2kDigestAlgo) case None => None case Some(v) => ParseDigest(v), Sha1),
      match LastValue(items, S2kCipherAlgo) case None => None case Some(v) => ParseS2kCipher(v),
      OrDefault(match LastValue(items, SessKey) case None => None case Some(v) => ParseBoolean(v), false))
  }

  lemma {:induction false} ParseItemsConcat(parsed: EncryptOptions, a: seq<string>, b: seq<string>)
    ensures ParseItems(parsed, a + b)
         == match ParseItems(parsed, a) case None => None case Some(next) => ParseItems(next, b)
    decreases |a|
  {
    hide ParseItem;
    if a == [] {
      assert a + b == b;
    } else {
      assert (a + b)[1..] == a[1..] + b;
      var next := ParseItem(parsed, a[0]);
      if next.Some? {
        ParseItemsConcat(next.value, a[1..], b);
      }
    }
  }

  lemma LastValueOfOneMore(items: seq<string>, item: string, option: OptionName)
    ensures LastValue(items + [item], option)
         == if ReadItem(item).Some? && ReadItem(item).value.0 == option then Some(ReadItem(item).value.1)
            else LastValue(items, option)
  {
    hide ReadItem;
    var more := items + [item];
    assert more[..|more| - 1] == items;
  }

  /** Setting an option overwrites exactly what that option names. */
  lemma SetOptionMeans(items: seq<string>, more: seq<string>, option: OptionName, value: string, textInput: bool)
    requires forall o: OptionName :: LastValue(more, o) == if o == option then Some(value) else LastValue(items, o)
    ensures SetOption(Meaning(items, textInput), option, value)
         == if ValueAccepted(option, value) then Some(Meaning(more, textInput)) else None
  {
    hide ParseCipher, ParseCompression, ParseLevel, ParseBoolean, ParseMode, ParseDigest, ParseS2kCipher, ParseCount;
    hide LastValue;
    match option {
      case CipherAlgo =>
      case CompressAlgo =>
      case CompressLevel =>
      case UnicodeMode =>
      case ConvertCrlf =>
      case S2kMode =>
      case S2kDigestAlgo =>
      case S2kCipherAlgo =>
      case S2kCount =>
      case SessKey =>
      case DisableMdc =>
      case IgnoreCipherFailure =>
    }
  }

  lemma MeaningOfOneMore(items: seq<string>, item: string, textInput: bool)
    ensures ParseItem(Meaning(items, textInput), item)
         == if Accepted(item) then Some(Meaning(items + [item], textInput)) else None
  {
    hide LastValue, SetOption, Meaning, ReadItem, ValueAccepted;
    var read := ReadItem(item);
    if read.Some? {
      forall option: OptionName
        ensures LastValue(items + [item], option)
             == if option == read.value.0 then Some(read.value.1) else LastValue(items, option)
      {
        LastValueOfOneMore(items, item, option);
      }
      SetOptionMeans(items, items + [item], read.value.0, read.value.1, textInput);
    }
  }

  lemma MeaningOfNothing(textInput: bool)
    ensures Meaning([], textInput) == Defaults(textInput)
  {
  }

  lemma {:induction false} ParseItemsMeans(items: seq<string>, textInput: bool)
    ensures ParseItems(Defaults(textInput), items)
         == if AllAccepted(items) then Some(Meaning(items, textInput)) else None
  {
    hide ParseItem, Meaning, Accepted, Defaults;
    MeaningOfNothing(textInput);
    if items != [] {
      var init, last := items[..|items| - 1], items[|items| - 1];
      assert items == init + [last];
      ParseItemsMeans(init, textInput);
      ParseItemsConcat(Defaults(textInput), init, [last]);
      MeaningOfOneMore(init, last, textInput);
      assert ParseItems(Meaning(init, textInput), [last]) == ParseItem(Meaning(init, textInput), last);
      assert AllAccepted(items) <==> AllAccepted(init) && Accepted(last);
    }
  }

  /**
    An option string is accepted exactly when each item is acceptable by itself and no count stands with
    another mode than 3; it then means what the last items of each name say.
   */
  lemma ParseOptionsMeans(options: string, textInput: bool)
    ensures var items := Items(options);
      ParseOptions(options, textInput)
      == if AllAccepted(items) && Consistent(Meaning(items, textInput)) then Some(Meaning(items, textInput)) else None
  {
    ParseItemsMeans(Items(options), textInput);
  }

  /** Two lists of acceptable items with the same last values have the same outcome. */
  lemma OnlyLastOccurrencesMatter(a: string, b: string, textInput: bool)
    requires AllAccepted(Items(a)) <==> AllAccepted(Items(b))
    requires forall option: OptionName :: LastValue(Items(a), option) == LastValue(Items(b), option)
    ensures ParseOptions(a, textInput) == ParseOptions(b, textInput)
  {
    ParseOptionsMeans(a, textInput);
    ParseOptionsMeans(b, textInput);
  }

  // ---------- Options with different names may be permuted ----------

  function NameOf(item: string): Option<string> {
    var (name, _) :- SplitOnce(item, '=');
    Some(Normalized(name))
  }

  ghost predicate DistinctNames(items: seq<string>) {
    forall i, j | 0 <= i < j < |items| :: NameOf(items[i]).Some? ==> NameOf(items[i]) != NameOf(items[j])
  }

  lemma {:induction false} LastValueOccurs(items: seq<string>, option: OptionName)
    requires LastValue(items, option).Some?
    ensures exists item <- items :: ReadItem(item) == Some((option, LastValue(items, option).value))
  {
    hide ReadItem;
    var init, last := items[..|items| - 1], items[|items| - 1];
    if ReadItem(last).Some? && ReadItem(last).value.0 == option {
      assert last in items;
    } else {
      LastValueOccurs(init, option);
      var item :| item in init && ReadItem(item) == Some((option, LastValue(init, option).value));
      assert item in items;
    }
  }

  lemma {:induction false} LastValueIsTheOnly(items: seq<string>, i: nat, option: OptionName, value: string)
    requires DistinctNames(items)
    requires i < |items| && ReadItem(items[i]) == Some((option, value))
    ensures LastValue(items, option) == Some(value)
  {
    hide ReadItem, NameOf;
    var init, last := items[..|items| - 1], items[|items| - 1];
    if i < |init| {
      SameOptionSameName(items[i], last);
      LastValueIsTheOnly(init, i, option, value);
    }
  }

  /** Among different names, the last value is the value of the item that occurs. */
  lemma LastValueIfDistinct(items: seq<string>, option: OptionName, value: string)
    requires DistinctNames(items)
    ensures LastValue(items, option) == Some(value) <==> exists item <- items :: ReadItem(item) == Some((option, value))
  {
    hide ReadItem, LastValue, DistinctNames;
    if LastValue(items, option) == Some(value) {
      LastValueOccurs(items, option);
    }
    forall item <- items | ReadItem(item) == Some((option, value))
      ensures LastValue(items, option) == Some(value)
    {
      var i :| 0 <= i < |items| && items[i] == item;
      LastValueIsTheOnly(items, i, option, value);
    }
  }

  lemma SameOptionSameName(a: string, b: string)
    ensures ReadItem(a).Some? && ReadItem(b).Some? && ReadItem(a).value.0 == ReadItem(b).value.0
        ==> NameOf(a).Some? && NameOf(a) == NameOf(b)
  {
    if NameOf(a).Some? && NameOf(b).Some? {
      SameOptionSameSpelling(NameOf(a).value, NameOf(b).value);
    }
  }

  function ArmOf(option: OptionName): (i: nat)
    ensures i < |OPTION_NAMES|
  {
    match option
    case CipherAlgo => 0
    case CompressAlgo => 1
    case CompressLevel => 2
    case UnicodeMode => 3
    case ConvertCrlf => 4
    case S2kMode => 5
    case S2kDigestAlgo => 6
    case S2kCipherAlgo => 7
    case S2kCount => 8
    case SessKey => 9
    case DisableMdc => 10
    case IgnoreCipherFailure => 11
  }

  lemma ArmOfItsOption(i: nat)
    requires i < |OPTION_NAMES|
    ensures ArmOf(OPTION_NAMES[i].1) == i
  {
  }

  lemma NameIsThatOfArm(name: string)
    requires ReadName(name).Some?
    ensures name == OPTION_NAMES[ArmOf(ReadName(name).value)].0
  {
    LookupFindsArm(OPTION_NAMES, name);
    var i :| 0 <= i < |OPTION_NAMES| && OPTION_NAMES[i].0 == name && ReadName(name) == Some(OPTION_NAMES[i].1);
    ArmOfItsOption(i);
  }

  lemma SameOptionSameSpelling(a: string, b: string)
    ensures ReadName(a).Some? && ReadName(a) == ReadName(b) ==> a == b
  {
    if ReadName(a).Some? && ReadName(a) == ReadName(b) {
      NameIsThatOfArm(a);
      NameIsThatOfArm(b);
    }
  }

  /** The names differ in length, or in the first, second or fifth character. */
  lemma NameMarks()
    ensures |OPTION_NAMES[0].0| == 11 && OPTION_NAMES[0].0[0] == 'c'
    ensures |OPTION_NAMES[1].0| == 13 && |OPTION_NAMES[2].0| == 14
    ensures |OPTION_NAMES[3].0| == 12 && OPTION_NAMES[3].0[0] == 'u'
    ensures |OPTION_NAMES[4].0| == 12 && OPTION_NAMES[4].0[0] == 'c'
    ensures |OPTION_NAMES[5].0| == 8 && OPTION_NAMES[5].0[1] == '2'
    ensures |OPTION_NAMES[6].0| == 15 && OPTION_NAMES[6].0[4] == 'd'
    ensures |OPTION_NAMES[7].0| == 15 && OPTION_NAMES[7].0[4] == 'c'
    ensures |OPTION_NAMES[8].0| == 9
    ensures |OPTION_NAMES[9].0| == 8 && OPTION_NAMES[9].0[1] == 'e'
    ensures |OPTION_NAMES[10].0| == 11 && OPTION_NAMES[10].0[0] == 'd'
    ensures |OPTION_NAMES[11].0| == 21
  {
  }

  lemma NamesAreDistinct(i: nat, j: nat)
    requires i < j < |OPTION_NAMES|
    ensures OPTION_NAMES[i].0 != OPTION_NAMES[j].0
  {
    NameMarks();
  }

  lemma PermutedOptions(a: string, b: string, textInput: bool)
    requires multiset(Items(a)) == multiset(Items(b))
    requires DistinctNames(Items(a)) && DistinctNames(Items(b))
    ensures ParseOptions(a, textInput) == ParseOptions(b, textInput)
  {
    var x, y := Items(a), Items(b);
    assert forall item :: item in x <==> item in y by {
      assert forall item :: item in x <==> item in multiset(x);
      assert forall item :: item in y <==> item in multiset(y);
    }
    forall option: OptionName
      ensures LastValue(x, option) == LastValue(y, option)
    {
      if LastValue(x, option).Some? {
        LastValueIfDistinct(x, option, LastValue(x, option).value);
        LastValueIfDistinct(y, option, LastValue(x, option).value);
      } else if LastValue(y, option).Some? {
        LastValueIfDistinct(x, option, LastValue(y, option).value);
        LastValueIfDistinct(y, option, LastValue(y, option).value);
      }
    }
    OnlyLastOccurrencesMatter(a, b, textInput);
  }

  // ---------- What acceptance guarantees ----------

  ghost predicate WithinLimits(parsed: EncryptOptions) {
    && parsed.compressionLevel <= 9
    && parsed.s2kMode in {0, 1, 3}
    && (parsed.s2kCount.Some? ==> parsed.s2kMode == 3 && MIN_COUNT <= parsed.s2kCount.value <= MAX_COUNT)
    && !parsed.cipher.Unknown?
    && (parsed.s2kCipher.Some? ==> parsed.s2kCipher.value in {Blowfish, Aes128, Aes192, Aes256})
  }

  lemma ValuesWithinLimits(value: string)
    ensures ParseCipher(value).Some? ==> !ParseCipher(value).value.Unknown?
    ensures ParseS2kCipher(value).Some? ==> ParseS2kCipher(value).value in {Blowfish, Aes128, Aes192, Aes256}
    ensures ParseLevel(value).Some? ==> ParseLevel(value).value <= 9
    ensures ParseMode(value).Some? ==> ParseMode(value).value in {0, 1, 3}
    ensures ParseCount(value).Some? ==> MIN_COUNT <= ParseCount(value).value <= MAX_COUNT
  {
    hide Normalized, Trim, ParseUnsigned;
  }

  lemma AcceptedIsWithinLimits(options: string, textInput: bool)
    requires ParseOptions(options, textInput).Some?
    ensures WithinLimits(ParseOptions(options, textInput).value)
    ensures ParseOptions(options, textInput).value.textInput == textInput
  {
    hide ParseCipher, ParseLevel, ParseMode, ParseS2kCipher, ParseCount, LastValue, AllAccepted, ParseOptions;
    ParseOptionsMeans(options, textInput);
    forall value
      ensures ParseCipher(value).Some? ==> !ParseCipher(value).value.Unknown?
      ensures ParseS2kCipher(value).Some? ==> ParseS2kCipher(value).value in {Blowfish, Aes128, Aes192, Aes256}
      ensures ParseLevel(value).Some? ==> ParseLevel(value).value <= 9
      ensures ParseMode(value).Some? ==> ParseMode(value).value in {0, 1, 3}
      ensures ParseCount(value).Some? ==> MIN_COUNT <= ParseCount(value).value <= MAX_COUNT
    {
      ValuesWithinLimits(value);
    }
  }

  // ---------- The two parsers ----------

  /** Every name that encryption knows, decryption knows in the same role. */
  lemma NamesAgree(n: string)
    requires ReadName(n).Some?
    ensures n == "convert-crlf" <==> ReadName(n) == Some(ConvertCrlf)
    ensures n == "ignore-cipher-failure" <==> ReadName(n) == Some(IgnoreCipherFailure)
    ensures n != "convert-crlf" && n != "ignore-cipher-failure" ==> IsEncryptionOnly(n)
  {
    NameIsThatOfArm(n);
    NameMarks();
    var i := ArmOf(ReadName(n).value);
    if i != 4 && i != 11 {
      var k := [0, 1, 2, 9, 0, 5, 7, 8, 6, 4, 3, 0][i];
      assert ENCRYPTION_ONLY[k] == OPTION_NAMES[i].0;
      MatchesPattern(ENCRYPTION_ONLY, k);
    }
  }

  lemma SetOptionConversion(parsed: EncryptOptions, option: OptionName, value: string)
    requires SetOption(parsed, option, value).Some?
    ensures option == ConvertCrlf || option == IgnoreCipherFailure ==> ParseBoolean(value).Some?
    ensures SetOption(parsed, option, value).value.convertCrlf
         == if option == ConvertCrlf then ParseBoolean(value).value else parsed.convertCrlf
  {
    hide ParseCipher, ParseCompression, ParseLevel, ParseBoolean, ParseMode, ParseDigest, ParseS2kCipher, ParseCount;
  }

  lemma ParsersAgreeOnItem(parsed: EncryptOptions, item: string)
    requires ParseItem(parsed, item).Some?
    ensures ParseDecryptItem(DecryptOptions(parsed.convertCrlf), item)
         == Some(DecryptOptions(ParseItem(parsed, item).value.convertCrlf))
  {
    hide ParseBoolean, SetOption, SplitOnce, Normalized, ReadName, IsEncryptionOnly;
    NamesAgree(Normalized(SplitOnce(item, '=').value.0));
    SetOptionConversion(parsed, ReadItem(item).value.0, ReadItem(item).value.1);
  }

  lemma {:induction false} ParsersAgreeOnItems(parsed: EncryptOptions, items: seq<string>)
    requires ParseItems(parsed, items).Some?
    ensures ParseDecryptItems(DecryptOptions(parsed.convertCrlf), items)
         == Some(DecryptOptions(ParseItems(parsed, items).value.convertCrlf))
    decreases |items|
  {
    hide ParseItem, ParseDecryptItem;
    if items != [] {
      ParsersAgreeOnItem(parsed, items[0]);
      ParsersAgreeOnItems(ParseItem(parsed, items[0]).value, items[1..]);
    }
  }

  /** Decryption accepts every option string that encryption accepts, and reads the same `convert-crlf`. */
  lemma ParsersAgree(options: string, textInput: bool)
    requires ParseOptions(options, textInput).Some?
    ensures ParseDecryptOptions(options)
         == Some(DecryptOptions(ParseOptions(options, textInput).value.convertCrlf))
  {
    ParsersAgreeOnItems(Defaults(textInput), Items(options));
  }

  lemma {:induction false} ParseDecryptItemsConcat(parsed: DecryptOptions, a: seq<string>, b: seq<string>)
    ensures ParseDecryptItems(parsed, a + b)
         == match ParseDecryptItems(parsed, a) case None => None case Some(next) => ParseDecryptItems(next, b)
    decreases |a|
  {
    hide ParseDecryptItem;
    if a == [] {
      assert a + b == b;
    } else {
      assert (a + b)[1..] == a[1..] + b;
      var next := ParseDecryptItem(parsed, a[0]);
      if next.Some? {
        ParseDecryptItemsConcat(next.value, a[1..], b);
      }
    }
  }

  /** A comma between two option strings continues both parsers from where the first string left them. */
  lemma CommaComposes(a: string, b: string, parsed: EncryptOptions, decrypt: DecryptOptions)
    ensures ParseItems(parsed, Items(a + [','] + b))
         == match ParseItems(parsed, Items(a)) case None => None case Some(next) => ParseItems(next, Items(b))
    ensures ParseDecryptItems(decrypt, Items(a + [','] + b))
         == match ParseDecryptItems(decrypt, Items(a))
            case None => None
            case Some(next) => ParseDecryptItems(next, Items(b))
  {
    ItemsConcat(a, b);
    ParseItemsConcat(parsed, Items(a), Items(b));
    ParseDecryptItemsConcat(decrypt, Items(a), Items(b));
  }
}
