/** The option strings of the OpenPGP functions, which encryption and decryption parse separately. */
module PgpOptions {
  import opened OpenPgpTypes
  import opened RustText
  import opened Wrappers

  datatype EncryptOptions = EncryptOptions(
    cipher: SymmetricAlgorithm,
    compression: CompressionAlgorithm,
    compressionLevel: nat,
    textInput: bool,
    unicodeMode: bool,
    convertCrlf: bool,
    s2kMode: nat,
    s2kCount: Option<nat>,
    s2kDigest: HashAlgorithm,
    s2kCipher: Option<SymmetricAlgorithm>,
    useSessionKey: bool)

  datatype DecryptOptions = DecryptOptions(convertCrlf: bool)

  function Defaults(textInput: bool): EncryptOptions {
    EncryptOptions(Aes128, Uncompressed, 6, textInput, false, false, 3, None, Sha1, None, false)
  }

  const MIN_COUNT := 1024
  const MAX_COUNT := 65011712

  // ---------- Cutting the option string into items ----------

  /** The pieces trimmed, without those that are then empty. */
  function TrimmedItems(pieces: seq<string>): seq<string> {
    if pieces == [] then []
    else (if Trim(pieces[0]) == "" then [] else [Trim(pieces[0])]) + TrimmedItems(pieces[1..])
  }

  function Items(options: string): seq<string> {
    TrimmedItems(Split(options, ','))
  }

  lemma {:induction false} TrimmedItemsConcat(a: seq<string>, b: seq<string>)
    ensures TrimmedItems(a + b) == TrimmedItems(a) + TrimmedItems(b)
  {
    if a == [] {
      assert a + b == b;
    } else {
      assert (a + b)[1..] == a[1..] + b;
      TrimmedItemsConcat(a[1..], b);
    }
  }

  lemma ItemsConcat(a: string, b: string)
    ensures Items(a + [','] + b) == Items(a) + Items(b)
  {
    SplitConcat(a, ',', b);
    TrimmedItemsConcat(Split(a, ','), Split(b, ','));
  }

  // ---------- Values ----------

  function Normalized(text: string): string {
    ToAsciiLowercase(Trim(text))
  }

  function ParseBoolean(value: string): Option<bool> {
    var v := Trim(value);
    if v == "0" then Some(false) else if v == "1" then Some(true) else None
  }

  function ParseCipher(value: string): Option<SymmetricAlgorithm> {
    var v := Normalized(value);
    if v == "bf" || v == "blowfish" then Some(Blowfish)
    else if v == "aes" || v == "aes128" then Some(Aes128)
    else if v == "aes192" then Some(Aes192)
    else if v == "aes256" then Some(Aes256)
    else if v == "3des" then Some(TripleDes)
    else if v == "cast5" then Some(Cast5)
    else None
  }

  function ParseCompression(value: string): Option<CompressionAlgorithm> {
    var v := Trim(value);
    if v == "0" then Some(Uncompressed)
    else if v == "1" then Some(Zip)
    else if v == "2" then Some(Zlib)
    else None
  }

  function ParseLevel(value: string): Option<nat> {
    var level :- ParseUnsigned(Trim(value), 255);
    if level > 9 then None else Some(level)
  }

  function ParseMode(value: string): Option<nat> {
    var mode :- ParseUnsigned(Trim(value), 255);
    if mode == 0 || mode == 1 || mode == 3 then Some(mode) else None
  }

  function ParseDigest(value: string): Option<HashAlgorithm> {
    var v := Normalized(value);
    if v == "md5" then Some(Md5) else if v == "sha1" then Some(Sha1) else None
  }

  function ParseS2kCipher(value: string): Option<SymmetricAlgorithm> {
    var v := Normalized(value);
    if v == "bf" then Some(Blowfish)
    else if v == "aes" || v == "aes128" then Some(Aes128)
    else if v == "aes192" then Some(Aes192)
    else if v == "aes256" then Some(Aes256)
    else None
  }

  function ParseCount(value: string): Option<nat> {
    var count :- ParseUnsigned(Trim(value), 0xFFFF_FFFF);
    if MIN_COUNT <= count <= MAX_COUNT then Some(count) else None
  }

  // ---------- The encryption parser ----------

  datatype OptionName =
    | CipherAlgo | CompressAlgo | CompressLevel | UnicodeMode | ConvertCrlf | S2kMode | S2kDigestAlgo
    | S2kCipherAlgo | S2kCount | SessKey | DisableMdc | IgnoreCipherFailure

  const OPTION_NAMES: seq<(string, OptionName)> := [
    ("cipher-algo", CipherAlgo),
    ("compress-algo", CompressAlgo),
    ("compress-level", CompressLevel),
    ("unicode-mode", UnicodeMode),
    ("convert-crlf", ConvertCrlf),
    ("s2k-mode", S2kMode),
    ("s2k-digest-algo", S2kDigestAlgo),
    ("s2k-cipher-algo", S2kCipherAlgo),
    ("s2k-count", S2kCount),
    ("sess-key", SessKey),
    ("disable-mdc", DisableMdc),
    ("ignore-cipher-failure", IgnoreCipherFailure)]

  function ReadName(name: string): Option<OptionName> {
    Lookup(OPTION_NAMES, name)
  }

  function SetOption(parsed: EncryptOptions, option: OptionName, value: string): Option<EncryptOptions> {
    match option
    case CipherAlgo => var v :- ParseCipher(value); Some(parsed.(cipher := v))
    case CompressAlgo => var v :- ParseCompression(value); Some(parsed.(compression := v))
    case CompressLevel => var v :- ParseLevel(value); Some(parsed.(compressionLevel := v))
    case UnicodeMode => var v :- ParseBoolean(value); Some(parsed.(unicodeMode := v))
    case ConvertCrlf => var v :- ParseBoolean(value); Some(parsed.(convertCrlf := v))
    case S2kMode => var v :- ParseMode(value); Some(parsed.(s2kMode := v))
    case S2kDigestAlgo => var v :- ParseDigest(value); Some(parsed.(s2kDigest := v))
    case S2kCipherAlgo => var v :- ParseS2kCipher(value); Some(parsed.(s2kCipher := Some(v)))
    case S2kCount => var v :- ParseCount(value); Some(parsed.(s2kCount := Some(v)))
    case SessKey => var v :- ParseBoolean(value); Some(parsed.(useSessionKey := v))
    case DisableMdc => var v :- ParseBoolean(value); if v then None else Some(parsed)
    case IgnoreCipherFailure => var _ :- ParseBoolean(value); Some(parsed)
  }

  /** What an item names, and the value it gives; an item without `=` or with an unknown name is an error. */
  function ReadItem(item: string): Option<(OptionName, string)> {
    var (name, value) :- SplitOnce(item, '=');
    var option :- ReadName(Normalized(name));
    Some((option, value))
  }

  function ParseItem(parsed: EncryptOptions, item: string): Option<EncryptOptions> {
    var (option, value) :- ReadItem(item);
    SetOption(parsed, option, value)
  }

  function ParseItems(parsed: EncryptOptions, items: seq<string>): Option<EncryptOptions>
    decreases |items|
  {
    if items == [] then Some(parsed)
    else
      var next :- ParseItem(parsed, items[0]);
      ParseItems(next, items[1..])
  }

  predicate Consistent(parsed: EncryptOptions) {
    parsed.s2kCount.Some? ==> parsed.s2kMode == 3
  }

  function ParseOptions(options: string, textInput: bool): Option<EncryptOptions> {
    var parsed :- ParseItems(Defaults(textInput), Items(options));
    if Consistent(parsed) then Some(parsed) else None
  }

  method RunParseOptions(options: string, textInput: bool) returns (r: Option<EncryptOptions>)
    ensures r == ParseOptions(options, textInput)
  {
    var parsed := Defaults(textInput);
    var items := Items(options);
    for i := 0 to |items|
      invariant ParseItems(Defaults(textInput), items) == ParseItems(parsed, items[i..])
    {
      assert items[i..][1..] == items[i + 1..];
      var next := ParseItem(parsed, items[i]);
      if next == None {
        return None;
      }
      parsed := next.value;
    }
    if parsed.s2kCount.Some? && parsed.s2kMode != 3 {
      return None;
    }
    return Some(parsed);
  }

  // ---------- The decryption parser ----------

  const ENCRYPTION_ONLY: seq<string> := [
    "cipher-algo", "compress-algo", "compress-level", "disable-mdc", "sess-key", "s2k-mode",
    "s2k-count", "s2k-digest-algo", "s2k-cipher-algo", "unicode-mode"]

  /** Names that decryption knows and ignores. */
  predicate IsEncryptionOnly(name: string) {
    MatchesAny(ENCRYPTION_ONLY, name)
  }

  function ParseDecryptItem(parsed: DecryptOptions, item: string): Option<DecryptOptions> {
    var (name, value) :- SplitOnce(item, '=');
    var n := Normalized(name);
    if n == "convert-crlf" then
      var v :- ParseBoolean(value);
      Some(parsed.(convertCrlf := v))
    else if n == "ignore-cipher-failure" then
      var _ :- ParseBoolean(value);
      Some(parsed)
    else if IsEncryptionOnly(n) then Some(parsed)
    else None
  }

  function ParseDecryptItems(parsed: DecryptOptions, items: seq<string>): Option<DecryptOptions>
    decreases |items|
  {
    if items == [] then Some(parsed)
    else
      var next :- ParseDecryptItem(parsed, items[0]);
      ParseDecryptItems(next, items[1..])
  }

  function ParseDecryptOptions(options: string): Option<DecryptOptions> {
    ParseDecryptItems(DecryptOptions(false), Items(options))
  }

  method RunParseDecryptOptions(options: string) returns (r: Option<DecryptOptions>)
    ensures r == ParseDecryptOptions(options)
  {
    var parsed := DecryptOptions(false);
    var items := Items(options);
    for i := 0 to |items|
      invariant ParseDecryptOptions(options) == ParseDecryptItems(parsed, items[i..])
    {
      assert items[i..][1..] == items[i + 1..];
      var next := ParseDecryptItem(parsed, items[i]);
      if next == None {
        return None;
      }
      parsed := next.value;
    }
    return Some(parsed);
  }
}
