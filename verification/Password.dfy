/**
  Salts for password hashing: a hash over the empty password is made by the library, and cut where its salt
  ends. Strings are those the library emits, so a character is an octet.
 */
module Password {
  import opened RustText
  import opened Wrappers

  // ---------- Cutting a hash ----------

  /** str::replace("$2b$", "$2a$"). */
  function ReplaceVariant(s: string): string {
    if s == "" then ""
    else if |s| >= 4 && s[0] == '$' && s[1] == '2' && s[2] == 'b' && s[3] == '$' then "$2a$" + ReplaceVariant(s[4..])
    else [s[0]] + ReplaceVariant(s[1..])
  }

  /** The positions of `$` in a string that starts at position `offset`, in order. */
  function Separators(s: string, offset: nat): seq<nat> {
    if s == "" then []
    else (if s[0] == '$' then [offset] else []) + Separators(s[1..], offset + 1)
  }

  /** The iterator over the positions of `$`. */
  class SeparatorIterator {
    const hash: string
    var position: nat

    ghost predicate Valid()
      reads this
    {
      position <= |hash|
    }

    ghost function Remaining(): seq<nat>
      reads this
      requires Valid()
    {
      Separators(hash[position..], position)
    }

    constructor (hash: string)
      ensures Valid() && this.hash == hash && Remaining() == Separators(hash, 0)
    {
      this.hash := hash;
      position := 0;
      assert hash[0..] == hash;
    }

    method Next() returns (index: Option<nat>)
      requires Valid()
      modifies this
      ensures Valid()
      ensures if old(Remaining()) == [] then index == None && Remaining() == []
              else index == Some(old(Remaining())[0]) && Remaining() == old(Remaining())[1..]
    {
      while position < |hash| && hash[position] != '$'
        invariant Valid() && Remaining() == old(Remaining())
      {
        assert hash[position..][1..] == hash[position + 1..];
        position := position + 1;
      }
      if position == |hash| {
        return None;
      }
      assert hash[position..][1..] == hash[position + 1..];
      index := Some(position);
      position := position + 1;
    }
  }

  /** Where the salt of a SHA-crypt hash ends: at the third separator, or the fourth when a `rounds=` field is there. */
  function ShaCryptEnd(hash: string): nat
    requires hash != ""
  {
    var separators := Separators(hash, 0);
    var third := if |separators| > 2 then separators[2] else |hash| - 1;
    if |hash| >= 10 && hash[3..10] == "rounds=" then
      if |separators| > 3 then separators[3] else third
    else third
  }

  /** `None` stands for the slices that are out of range, and for the unknown algorithm. */
  function SaltPrefix(hash: string, algorithm: string): Option<string> {
    if algorithm == "bf" then if |hash| < 29 then None else Some(ReplaceVariant(hash[..29]))
    else if algorithm == "des" then if |hash| < 2 then None else Some(hash[..2])
    else if algorithm == "xdes" then if |hash| < 9 then None else Some(hash[..9])
    else if algorithm == "md5" then
      if |hash| < 3 then None
      else
        var index := Find(hash[3..], '$');
        Some(hash[..if index < |hash| - 3 then index + 4 else |hash|])
    else if algorithm == "sha256crypt" || algorithm == "sha512crypt" then
      if hash == "" then None else Some(ShaCryptSalt(hash))
    else None
  }

  function ShaCryptSalt(hash: string): string
    requires hash != ""
  {
    SeparatorsInRange(hash, 0);
    hash[..ShaCryptEnd(hash) + 1]
  }

  lemma {:induction false} SeparatorsInRange(s: string, offset: nat)
    ensures forall k | 0 <= k < |Separators(s, offset)| :: offset <= Separators(s, offset)[k] < offset + |s|
  {
    if s != "" {
      SeparatorsInRange(s[1..], offset + 1);
    }
  }

  /** The SHA-crypt arm, which steps the iterator. */
  method CutShaCrypt(hash: string) returns (salt: string)
    requires hash != ""
    ensures salt == ShaCryptSalt(hash)
  {
    hide Separators;
    SeparatorsInRange(hash, 0);
    var separators := new SeparatorIterator(hash);
    var _ := separators.Next();
    var _ := separators.Next();
    var next := separators.Next();
    var third := if next.Some? then next.value else |hash| - 1;
    var end := third;
    if |hash| >= 10 && hash[3..10] == "rounds=" {
      next := separators.Next();
      end := if next.Some? then next.value else third;
    }
    salt := hash[..end + 1];
  }

  // ---------- The salts of the six formats ----------

  predicate IsSaltChar(c: char) {
    c == '.' || c == '/' || '0' <= c <= '9' || 'A' <= c <= 'Z' || 'a' <= c <= 'z'
  }

  predicate IsSaltText(s: string) {
    forall i | 0 <= i < |s| :: IsSaltChar(s[i])
  }

  datatype Salt =
    | Bcrypt(cost: string, salt: string)
    | Des(salt: string)
    | ExtendedDes(count: string, salt: string)
    | Md5(salt: string)
    | Sha(sha512: bool, rounds: Option<string>, salt: string)
  {
    predicate WellFormed() {
      && IsSaltText(salt)
      && match this
         case Bcrypt(cost, salt) => |cost| == 2 && AllDigits(cost) && |salt| == 22
         case Des(salt) => |salt| == 2
         case ExtendedDes(count, salt) => |count| == 4 && IsSaltText(count) && |salt| == 4
         case Md5(salt) => |salt| <= 8
         case Sha(_, rounds, salt) => |salt| <= 16 && (rounds.Some? ==> rounds.value != "" && AllDigits(rounds.value))
    }

    function Algorithm(): string {
      match this
      case Bcrypt(_, _) => "bf"
      case Des(_) => "des"
      case ExtendedDes(_, _) => "xdes"
      case Md5(_) => "md5"
      case Sha(sha512, _, _) => if sha512 then "sha512crypt" else "sha256crypt"
    }

    /** The salt as `crypt` expects it. */
    function Render(): string {
      match this
      case Bcrypt(cost, salt) => "$2a$" + cost + ['$'] + salt
      case Des(salt) => salt
      case ExtendedDes(count, salt) => ['_'] + count + salt
      case Md5(salt) => "$1$" + salt + ['$']
      case Sha(sha512, rounds, salt) =>
        ['$'] + (if sha512 then "6" else "5") + ['$']
        + match rounds
          case None => salt + ['$']
          case Some(n) => "rounds=" + n + ['$'] + (salt + ['$'])
    }
  }

  // ---------- Generating a salt ----------

  function RoundsOrDefault(rounds: int, default: nat): Option<nat> {
    if rounds == 0 then Some(default) else if rounds > 0 then Some(rounds) else None
  }

  /** What the library is asked for. */
  datatype Request =
    | BcryptRequest(cost: nat) | DesRequest | ExtendedDesRequest(rounds: nat) | Md5Request
    | ShaRequest(sha512: bool, rounds: nat)

  const DEFAULT_SHA_ROUNDS := 5000

  /** The iteration counts that each algorithm takes. */
  function ReadRequest(algorithm: string, rounds: int): Option<Request> {
    if algorithm == "bf" then
      var cost := if rounds == 0 then 6 else rounds;
      if 4 <= cost <= 31 then Some(BcryptRequest(cost)) else None
    else if algorithm == "des" then if rounds == 0 || rounds == 25 then Some(DesRequest) else None
    else if algorithm == "xdes" then
      var actual :- RoundsOrDefault(rounds, 725);
      if actual > 16777215 || actual % 2 == 0 then None else Some(ExtendedDesRequest(actual))
    else if algorithm == "md5" then if rounds == 0 || rounds == 1000 then Some(Md5Request) else None
    else if algorithm == "sha256crypt" || algorithm == "sha512crypt" then
      var actual :- RoundsOrDefault(rounds, DEFAULT_SHA_ROUNDS);
      if 1000 <= actual <= 999999999 then Some(ShaRequest(algorithm == "sha512crypt", actual)) else None
    else None
  }

  function GenSalt(hash: Request -> string, algorithm: string, rounds: int): Option<string> {
    var name := ToAsciiLowercase(algorithm);
    var request :- ReadRequest(name, rounds);
    SaltPrefix(hash(request), name)
  }
}
