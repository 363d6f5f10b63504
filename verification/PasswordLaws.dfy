/** Cutting a hash leaves exactly its salt. */
module PasswordLaws {
  import opened Password
  import opened RustText
  import opened Wrappers

  // ---------- Cutting ----------

  /** A field without `$`, ended by `$`, yields one separator. */
  lemma {:induction false} SeparatorAfterField(field: string, rest: string, offset: nat)
    requires '$' !in field
    ensures Separators(field + ['$'] + rest, offset)
         == [offset + |field|] + Separators(rest, offset + |field| + 1)
  {
    var s := field + ['$'] + rest;
    if field == "" {
      assert s[1..] == rest;
    } else {
      assert s[1..] == field[1..] + ['$'] + rest;
      SeparatorAfterField(field[1..], rest, offset + 1);
    }
  }

  predicate VariantAt(s: string, i: nat) {
    i + 3 < |s| && s[i] == '$' && s[i + 1] == '2' && s[i + 2] == 'b' && s[i + 3] == '$'
  }

  lemma {:induction false} NothingToReplace(s: string)
    requires forall i | 0 <= i < |s| :: !VariantAt(s, i)
    ensures ReplaceVariant(s) == s
  {
    if s != "" {
      assert !VariantAt(s, 0);
      assert forall i | 0 <= i < |s[1..]| :: VariantAt(s[1..], i) ==> VariantAt(s, i + 1);
      NothingToReplace(s[1..]);
    }
  }

  /** The first `$2b$` becomes `$2a$`, and replacing goes on behind it. */
  lemma {:induction false} ReplaceFirst(front: string, rest: string)
    requires forall i | 0 <= i < |front| :: !VariantAt(front + "$2b$" + rest, i)
    ensures ReplaceVariant(front + "$2b$" + rest) == front + "$2a$" + ReplaceVariant(rest)
  {
    var s := front + "$2b$" + rest;
    if front == "" {
      assert s[4..] == rest;
    } else {
      var t := front[1..] + "$2b$" + rest;
      assert s[1..] == t;
      assert !VariantAt(s, 0);
      assert forall i | 0 <= i < |front| - 1 :: VariantAt(t, i) ==> VariantAt(s, i + 1);
      ReplaceFirst(front[1..], rest);
    }
  }

  lemma CutVariant(rest: string, variant: char, digest: string)
    requires |rest| == 25 && variant in {'a', 'b'}
    requires forall i | 0 <= i < |rest| :: rest[i] == '$' <==> i == 2
    requires rest[1] != 'b'
    ensures SaltPrefix(['$', '2', variant, '$'] + rest + digest, "bf") == Some("$2a$" + rest)
  {
    var settings := ['$', '2', variant, '$'] + rest;
    assert (settings + digest)[..29] == settings;
    assert forall i | 4 <= i < 29 :: settings[i] == rest[i - 4];
    if variant == 'b' {
      NothingToReplace(rest);
      assert settings[4..] == rest;
    } else {
      NothingToReplace(settings);
    }
  }

  /** Whichever of the two variants the library writes, the salt says `2a`. */
  lemma CutBcrypt(s: Salt, variant: char, digest: string)
    requires s.Bcrypt? && s.WellFormed() && variant in {'a', 'b'}
    ensures SaltPrefix(['$', '2', variant, '$'] + (s.cost + ['$'] + s.salt) + digest, "bf") == Some(s.Render())
  {
    hide SaltPrefix;
    var rest := s.cost + ['$'] + s.salt;
    BcryptFields(s, rest);
    CutVariant(rest, variant, digest);
    assert s.Render() == "$2a$" + rest;
  }

  lemma BcryptFields(s: Salt, rest: string)
    requires s.Bcrypt? && s.WellFormed() && rest == s.cost + ['$'] + s.salt
    ensures forall i | 0 <= i < |rest| :: rest[i] == '$' <==> i == 2
    ensures rest[1] != 'b'
  {
    assert rest[1] == s.cost[1];
    forall i | 0 <= i < |rest|
      ensures rest[i] == '$' <==> i == 2
    {
      if i < 2 {
        assert rest[i] == s.cost[i];
      } else if i > 2 {
        assert rest[i] == s.salt[i - 3] && IsSaltChar(s.salt[i - 3]);
      }
    }
  }

  lemma CutMd5(s: Salt, digest: string)
    requires s.Md5? && s.WellFormed()
    ensures SaltPrefix(s.Render() + digest, "md5") == Some(s.Render())
  {
    var hash := s.Render() + digest;
    assert hash[3..] == s.salt + ['$'] + digest;
    SplitOnceAt(s.salt, '$', digest);
    assert hash[..|s.salt| + 4] == s.Render();
  }

  lemma IdSeparators(id: string, rest: string)
    requires '$' !in id
    ensures Separators(['$'] + id + ['$'] + rest, 0) == [0, |id| + 1] + Separators(rest, |id| + 2)
  {
    var tail := id + ['$'] + rest;
    assert ['$'] + id + ['$'] + rest == "" + ['$'] + tail;
    SeparatorAfterField("", tail, 0);
    SeparatorAfterField(id, rest, 1);
  }

  lemma SeparatorsWithoutRounds(id: string, salt: string, digest: string)
    requires '$' !in id && '$' !in salt
    ensures var separators := Separators(['$'] + id + ['$'] + (salt + ['$'] + digest), 0);
      |separators| > 2 && separators[2] == |id| + 2 + |salt|
  {
    hide Separators;
    IdSeparators(id, salt + ['$'] + digest);
    SeparatorAfterField(salt, digest, |id| + 2);
  }

  lemma SeparatorsWithRounds(id: string, field: string, salt: string, digest: string)
    requires '$' !in id && '$' !in field && '$' !in salt
    ensures var separators := Separators(['$'] + id + ['$'] + (field + ['$'] + (salt + ['$'] + digest)), 0);
      |separators| > 3 && separators[3] == |id| + 3 + |field| + |salt|
  {
    hide Separators;
    var tail := salt + ['$'] + digest;
    IdSeparators(id, field + ['$'] + tail);
    SeparatorAfterField(field, tail, |id| + 2);
    SeparatorAfterField(salt, digest, |id| + |field| + 3);
  }

  lemma NoSeparatorInside(s: Salt)
    requires s.Sha? && s.WellFormed()
    ensures '$' !in s.salt
    ensures s.rounds.Some? ==> '$' !in "rounds=" + s.rounds.value
  {
    assert !IsSaltChar('$');
  }

  /** The salt ends at the third separator, or at the fourth when it has a `rounds=` field. */
  lemma ShaSeparators(s: Salt, digest: string)
    requires s.Sha? && s.WellFormed()
    ensures var hash, n := s.Render() + digest, |s.Render()|;
      var separators := Separators(hash, 0);
      match s.rounds
      case None => |separators| > 2 && separators[2] == n - 1
      case Some(_) => |separators| > 3 && separators[3] == n - 1
  {
    hide Separators;
    var id, salt := if s.sha512 then "6" else "5", s.salt;
    var front := ['$'] + id + ['$'];
    NoSeparatorInside(s);
    match s.rounds
    case None =>
      Regroup(front, salt + ['$'], digest);
      SeparatorsWithoutRounds(id, salt, digest);
    case Some(n) =>
      var field := "rounds=" + n;
      Regroup(front, field + ['$'] + (salt + ['$']), digest);
      Regroup(field + ['$'], salt + ['$'], digest);
      SeparatorsWithRounds(id, field, salt, digest);
  }

  lemma Regroup(a: string, b: string, c: string)
    ensures (a + b) + c == a + (b + c)
  {
  }

  /** A `rounds=` field is seen exactly when the salt has one: the salt itself cannot look like it. */
  lemma RoundsFieldSeenIff(s: Salt, digest: string)
    requires s.Sha? && s.WellFormed()
    ensures var hash := s.Render() + digest;
      |hash| >= 10 && hash[3..10] == "rounds=" <==> s.rounds.Some?
  {
    var hash := s.Render() + digest;
    if s.rounds.Some? {
      assert hash[3..10] == "rounds=";
    } else if |hash| >= 10 {
      assert hash[3..|s.salt| + 3] == s.salt;
      if |s.salt| >= 7 {
        assert hash[9] == s.salt[6] && "rounds="[6] == '=';
        assert hash[3..10][6] == hash[9];
      } else {
        assert hash[3..10][|s.salt|] == '$';
      }
    }
  }

  lemma CutSha(s: Salt, digest: string)
    requires s.Sha? && s.WellFormed()
    ensures SaltPrefix(s.Render() + digest, s.Algorithm()) == Some(s.Render())
  {
    ShaSeparators(s, digest);
    RoundsFieldSeenIff(s, digest);
    var hash := s.Render() + digest;
    assert hash[..|s.Render()|] == s.Render();
  }

  lemma CutDes(s: Salt, digest: string)
    requires (s.Des? || s.ExtendedDes?) && s.WellFormed()
    ensures SaltPrefix(s.Render() + digest, s.Algorithm()) == Some(s.Render())
  {
    assert (s.Render() + digest)[..|s.Render()|] == s.Render();
    hide Salt.Render;
  }

  /** Whatever digest follows a salt, cutting takes it off and leaves the salt, in every format. */
  lemma CutLeavesSalt(s: Salt, digest: string)
    requires s.WellFormed()
    ensures SaltPrefix(s.Render() + digest, s.Algorithm()) == Some(s.Render())
  {
    hide SaltPrefix;
    match s {
      case Bcrypt(cost, salt) =>
        CutBcrypt(s, 'a', digest);
        assert ['$', '2', 'a', '$'] + (cost + ['$'] + salt) == s.Render();
      case Des(_) =>
        CutDes(s, digest);
      case ExtendedDes(_, _) =>
        CutDes(s, digest);
      case Md5(_) =>
        CutMd5(s, digest);
      case Sha(_, _, _) =>
        CutSha(s, digest);
    }
  }

  /** Cutting a salt again changes nothing. */
  lemma CutIsIdempotent(s: Salt, digest: string)
    requires s.WellFormed()
    ensures var cut := SaltPrefix(s.Render() + digest, s.Algorithm());
      cut.Some? && SaltPrefix(cut.value, s.Algorithm()) == cut
  {
    CutLeavesSalt(s, digest);
    CutLeavesSalt(s, "");
    assert s.Render() + "" == s.Render();
  }

  // ---------- Cutting any string ----------

  function CountOf(s: string, c: char): nat {
    if s == "" then 0 else (if s[0] == c then 1 else 0) + CountOf(s[1..], c)
  }

  lemma {:induction false} SeparatorsCounted(s: string, offset: nat)
    ensures |Separators(s, offset)| == CountOf(s, '$')
  {
    if s != "" {
      SeparatorsCounted(s[1..], offset + 1);
    }
  }

  /** Separator k is a `$` with k others before it. */
  lemma {:induction false} SeparatorAt(s: string, offset: nat, k: nat)
    requires k < |Separators(s, offset)|
    ensures var p := Separators(s, offset)[k] - offset;
      0 <= p < |s| && s[p] == '$' && CountOf(s[..p + 1], '$') == k + 1
  {
    var rest := s[1..];
    if s[0] == '$' && k == 0 {
      assert s[..1][1..] == "";
    } else {
      var l := if s[0] == '$' then k - 1 else k;
      assert Separators(s, offset)[k] == Separators(rest, offset + 1)[l];
      SeparatorAt(rest, offset + 1, l);
      hide Separators;
      var p := Separators(rest, offset + 1)[l] - (offset + 1);
      assert s[..p + 2][1..] == rest[..p + 1];
    }
  }

  /** With fewer than three `$`, nothing is cut; else the third or, behind a `rounds=` field, the fourth is the last. */
  lemma CutShaCryptEnds(hash: string)
    requires hash != ""
    ensures var cut, separators := ShaCryptSalt(hash), CountOf(hash, '$');
      && cut <= hash
      && if separators < 3 then cut == hash
         else
           && cut != "" && cut[|cut| - 1] == '$'
           && CountOf(cut, '$')
              == if separators > 3 && |hash| >= 10 && hash[3..10] == "rounds=" then 4 else 3
  {
    hide Separators, CountOf;
    SeparatorsInRange(hash, 0);
    SeparatorsCounted(hash, 0);
    if CountOf(hash, '$') > 2 {
      SeparatorAt(hash, 0, 2);
    }
    if CountOf(hash, '$') > 3 {
      SeparatorAt(hash, 0, 3);
    }
  }

  /** A hash of md5crypt is cut behind the first `$` after its identifier, and not at all without one. */
  lemma CutMd5Ends(hash: string)
    requires |hash| >= 3
    ensures SaltPrefix(hash, "md5").Some?
    ensures var cut := SaltPrefix(hash, "md5").value;
      && cut <= hash && |cut| >= 3
      && (cut == hash || (|cut| > 3 && cut[|cut| - 1] == '$'))
      && forall i | 3 <= i < |cut| - 1 :: cut[i] != '$'
  {
    var index := Find(hash[3..], '$');
    assert forall i | 0 <= i < index :: hash[3..][..index][i] == hash[i + 3];
  }

  /** Cutting fails exactly on strings that are too short for their format, and for unknown algorithms. */
  lemma CutFailsIff(hash: string, algorithm: string)
    ensures SaltPrefix(hash, algorithm).None?
       <==> match algorithm
            case "bf" => |hash| < 29
            case "des" => |hash| < 2
            case "xdes" => |hash| < 9
            case "md5" => |hash| < 3
            case "sha256crypt" => hash == ""
            case "sha512crypt" => hash == ""
            case _ => true
  {
  }

  // ---------- The salt reads back ----------

  lemma ShaReadsBack(s: Salt, t: Salt)
    requires s.Sha? && t.Sha? && s.WellFormed() && t.WellFormed()
    requires s.Render() == t.Render()
    ensures s == t
  {
    FormatMark(s);
    FormatMark(t);
    RoundsMark(s);
    RoundsMark(t);
    ShaTail(s);
    ShaTail(t);
    hide Salt.Render, SplitOnce;
    if s.rounds.Some? {
      assert s.salt + ['$'] == t.salt + ['$'];
      assert s.salt == (s.salt + ['$'])[..|s.salt|];
      assert t.salt == (t.salt + ['$'])[..|t.salt|];
    }
  }

  lemma RoundsMark(s: Salt)
    requires s.Sha? && s.WellFormed()
    ensures |s.Render()| >= 10 && s.Render()[3..10] == "rounds=" <==> s.rounds.Some?
  {
    RoundsFieldSeenIff(s, "");
    assert s.Render() + "" == s.Render();
  }

  lemma ShaTail(s: Salt)
    requires s.Sha? && s.WellFormed()
    ensures match s.rounds
            case None => s.Render()[3..|s.Render()| - 1] == s.salt
            case Some(n) => SplitOnce(s.Render()[10..], '$') == Some((n, s.salt + ['$']))
  {
    match s.rounds
    case None =>
    case Some(n) =>
      assert s.Render()[10..] == n + ['$'] + (s.salt + ['$']);
      SplitOnceAt(n, '$', s.salt + ['$']);
  }

  /** A salt says its algorithm, its rounds and its text. */
  lemma RenderReadsBack(s: Salt, t: Salt)
    requires s.WellFormed() && t.WellFormed()
    requires s.Render() == t.Render()
    ensures s == t
  {
    SameFormat(s, t);
    var text := s.Render();
    match s {
      case Bcrypt(cost, salt) =>
        assert text[4..6] == cost && text[7..] == salt;
        assert text[4..6] == t.cost && text[7..] == t.salt;
      case Des(_) =>
      case ExtendedDes(count, salt) =>
        assert text[1..5] == count && text[5..] == salt;
        assert text[1..5] == t.count && text[5..] == t.salt;
      case Md5(salt) =>
        assert text[3..|text| - 1] == salt;
        assert text[3..|text| - 1] == t.salt;
      case Sha(_, _, _) =>
        ShaReadsBack(s, t);
    }
  }

  lemma SameFormat(s: Salt, t: Salt)
    requires s.WellFormed() && t.WellFormed()
    requires s.Render() == t.Render()
    ensures s.Algorithm() == t.Algorithm()
    ensures (s.Bcrypt? <==> t.Bcrypt?) && (s.Des? <==> t.Des?) && (s.ExtendedDes? <==> t.ExtendedDes?)
    ensures (s.Md5? <==> t.Md5?) && (s.Sha? <==> t.Sha?)
  {
    FormatMark(s);
    FormatMark(t);
  }

  lemma FormatMark(s: Salt)
    requires s.WellFormed()
    ensures |s.Render()| >= 2
    ensures s.Render()[0] == '$' <==> s.Bcrypt? || s.Md5? || s.Sha?
    ensures s.Render()[0] == '_' <==> s.ExtendedDes?
    ensures s.Bcrypt? ==> s.Render()[1] == '2'
    ensures s.Md5? ==> s.Render()[1] == '1'
    ensures s.Sha? ==> s.Render()[1] == if s.sha512 then '6' else '5'
  {
    if s.Des? {
      assert IsSaltChar(s.salt[0]);
    }
  }

  /** The hash of a known algorithm determines its salt, whatever follows it. */
  lemma HashDeterminesSalt(s: Salt, digest: string, t: Salt, digest': string)
    requires s.WellFormed() && t.WellFormed() && s.Algorithm() == t.Algorithm()
    requires s.Render() + digest == t.Render() + digest'
    ensures s == t && digest == digest'
  {
    CutLeavesSalt(s, digest);
    CutLeavesSalt(t, digest');
    RenderReadsBack(s, t);
    assert (s.Render() + digest)[|s.Render()|..] == digest;
    assert (t.Render() + digest')[|t.Render()|..] == digest';
  }

  // ---------- Generated salts ----------

  /** The number that a little-endian string of six-bit digits stands for. */
  function SixBitNumber(s: string): nat {
    if s == "" then 0 else SixBitDigit(s[0]) + 64 * SixBitNumber(s[1..])
  }

  function SixBitDigit(c: char): nat {
    if 'a' <= c <= 'z' then c as int - 'a' as int + 38
    else if 'A' <= c <= 'Z' then c as int - 'A' as int + 12
    else if '.' <= c <= '9' then c as int - '.' as int
    else 0
  }

  /** The salt has the format and the iteration count that were asked for. */
  predicate Honours(s: Salt, request: Request) {
    && s.WellFormed()
    && match request
       case BcryptRequest(cost) => s.Bcrypt? && Digits(s.cost) == cost
       case DesRequest => s.Des?
       case ExtendedDesRequest(rounds) => s.ExtendedDes? && SixBitNumber(s.count) == rounds
       case Md5Request => s.Md5?
       case ShaRequest(sha512, rounds) =>
         s.Sha? && s.sha512 == sha512
         && if s.rounds.Some? then Digits(s.rounds.value) == rounds else rounds == DEFAULT_SHA_ROUNDS
  }

  /** The hash starts with the salt; the variant letter of bcrypt may be `a` or `b`. */
  ghost predicate StartsWithSalt(hash: string, s: Salt) {
    || s.Render() <= hash
    || (s.Bcrypt? && ['$', '2', 'b', '$'] + (s.cost + ['$'] + s.salt) <= hash)
  }

  /** What the library can be asked for. */
  predicate IsServed(request: Request) {
    match request
    case BcryptRequest(cost) => 4 <= cost <= 31
    case ExtendedDesRequest(rounds) => 1 <= rounds <= 16777215
    case ShaRequest(_, rounds) => 1000 <= rounds <= 999999999
    case DesRequest | Md5Request => true
  }

  /** The library hashes with a salt of the requested format and count. */
  ghost predicate Lawful(hash: Request -> string) {
    forall request | IsServed(request) :: exists s :: Honours(s, request) && StartsWithSalt(hash(request), s)
  }

  /** The count that is used: the given one, or the default of the algorithm for zero. */
  function CountUsed(name: string, rounds: int): int {
    if rounds != 0 then rounds
    else if name == "bf" then 6
    else if name == "des" then 25
    else if name == "xdes" then 725
    else if name == "md5" then 1000
    else 5000
  }

  predicate TakesCount(name: string, count: int) {
    || (name == "bf" && 4 <= count <= 31)
    || (name == "des" && count == 25)
    || (name == "xdes" && 1 <= count <= 16777215 && count % 2 == 1)
    || (name == "md5" && count == 1000)
    || ((name == "sha256crypt" || name == "sha512crypt") && 1000 <= count <= 999999999)
  }

  /** The salt names the algorithm and the count, where its format has a place for that. */
  predicate SaysCount(s: Salt, name: string, count: int) {
    && s.WellFormed() && s.Algorithm() == name
    && match s
       case Bcrypt(cost, _) => Digits(cost) == count
       case ExtendedDes(digits, _) => SixBitNumber(digits) == count
       case Sha(_, rounds, _) => count == if rounds.Some? then Digits(rounds.value) else 5000
       case Des(_) | Md5(_) => true
  }

  lemma RequestIff(name: string, rounds: int)
    ensures ReadRequest(name, rounds).Some? <==> TakesCount(name, CountUsed(name, rounds))
    ensures ReadRequest(name, rounds).Some? ==> IsServed(ReadRequest(name, rounds).value)
  {
  }

  lemma HonouringSaysCount(name: string, rounds: int, s: Salt)
    requires ReadRequest(name, rounds).Some? && Honours(s, ReadRequest(name, rounds).value)
    ensures SaysCount(s, name, CountUsed(name, rounds))
  {
    RequestNamesAlgorithm(name, rounds, s);
    hide Salt.WellFormed, SixBitNumber, Digits;
  }

  /**
    Salts are generated exactly for known algorithms and counts that they take; the salt is of this algorithm, says
    the given or the default count, and is the one that the library used.
   */
  lemma GenSaltGivesSalt(hash: Request -> string, algorithm: string, rounds: int)
    requires Lawful(hash)
    ensures var name, generated := ToAsciiLowercase(algorithm), GenSalt(hash, algorithm, rounds);
      && (generated.Some? <==> TakesCount(name, CountUsed(name, rounds)))
      && (generated.Some? ==> exists s :: SaysCount(s, name, CountUsed(name, rounds)) && generated == Some(s.Render()))
  {
    hide SaltPrefix, ReadRequest, Salt.Render, Salt.WellFormed, TakesCount, SaysCount, CountUsed;
    var name := ToAsciiLowercase(algorithm);
    var request := ReadRequest(name, rounds);
    RequestIff(name, rounds);
    if request.Some? {
      var text := hash(request.value);
      var s :| Honours(s, request.value) && StartsWithSalt(text, s);
      HonouringSaysCount(name, rounds, s);
      RequestNamesAlgorithm(name, rounds, s);
      if s.Render() <= text {
        CutLeavesSalt(s, text[|s.Render()|..]);
        assert text == s.Render() + text[|s.Render()|..];
      } else {
        var front := ['$', '2', 'b', '$'] + (s.cost + ['$'] + s.salt);
        CutBcrypt(s, 'b', text[|front|..]);
        assert text == front + text[|front|..];
      }
    }
  }

  lemma RequestNamesAlgorithm(name: string, rounds: int, s: Salt)
    requires ReadRequest(name, rounds).Some? && Honours(s, ReadRequest(name, rounds).value)
    ensures s.Algorithm() == name
  {
  }

  // ---------- Accepted iteration counts can be written ----------

  function SixBitChar(d: nat): (c: char)
    requires d < 64
    ensures IsSaltChar(c) && SixBitDigit(c) == d
  {
    if d < 12 then ('.' as int + d) as char
    else if d < 38 then ('A' as int + (d - 12)) as char
    else ('a' as int + (d - 38)) as char
  }

  function SixBitString(n: nat, length: nat): string {
    if length == 0 then "" else [SixBitChar(n % 64)] + SixBitString(n / 64, length - 1)
  }

  function Power64(n: nat): nat {
    if n == 0 then 1 else 64 * Power64(n - 1)
  }

  lemma {:induction false} SixBitStringReadsBack(n: nat, length: nat)
    requires n < Power64(length)
    ensures var s := SixBitString(n, length); |s| == length && IsSaltText(s) && SixBitNumber(s) == n
  {
    if length > 0 {
      SixBitStringReadsBack(n / 64, length - 1);
      var s := SixBitString(n, length);
      assert s[1..] == SixBitString(n / 64, length - 1);
      assert forall i | 1 <= i < |s| :: s[i] == s[1..][i - 1];
    }
  }

  lemma {:induction false} SixBitNumberBound(s: string)
    ensures SixBitNumber(s) < Power64(|s|)
  {
    if s != "" {
      SixBitNumberBound(s[1..]);
    }
  }

  lemma FourDigits()
    ensures Power64(4) == 16777216
  {
    assert Power64(2) == 4096;
  }

  function SomeSalt(length: nat): (s: string)
    ensures |s| == length && IsSaltText(s)
  {
    seq(length, _ => '.')
  }

  lemma TwoDigits(n: nat)
    requires 4 <= n <= 31
    ensures var s := [Digit(n / 10), Digit(n % 10)]; AllDigits(s) && Digits(s) == n
  {
    var s := [Digit(n / 10), Digit(n % 10)];
    assert s[..1] == [Digit(n / 10)];
    assert s[..1][..0] == "";
    assert Digits(s[..1]) == n / 10;
  }

  /** Every accepted iteration count has a salt that says it. */
  lemma AcceptedCountsAreWritable(algorithm: string, rounds: int) returns (s: Salt)
    requires ReadRequest(algorithm, rounds).Some?
    ensures Honours(s, ReadRequest(algorithm, rounds).value) && s.Algorithm() == algorithm
  {
    match ReadRequest(algorithm, rounds).value
    case BcryptRequest(cost) =>
      TwoDigits(cost);
      s := Bcrypt([Digit(cost / 10), Digit(cost % 10)], SomeSalt(22));
    case DesRequest =>
      s := Des(SomeSalt(2));
    case ExtendedDesRequest(count) =>
      FourDigits();
      SixBitStringReadsBack(count, 4);
      s := ExtendedDes(SixBitString(count, 4), SomeSalt(4));
    case Md5Request =>
      s := Md5(SomeSalt(8));
    case ShaRequest(sha512, count) =>
      DecimalReadsBack(count);
      s := Sha(sha512, Some(Decimal(count)), SomeSalt(16));
  }

  /** For extended DES, the upper limit is exact: an odd count is accepted iff some salt can say it. */
  lemma ExtendedDesLimitIsExact(rounds: int)
    requires rounds > 0 && rounds % 2 == 1
    ensures ReadRequest("xdes", rounds).Some?
       <==> exists s: Salt :: s.ExtendedDes? && s.WellFormed() && SixBitNumber(s.count) == rounds
  {
    assert ReadRequest("xdes", rounds).Some? <==> rounds <= 16777215;
    hide ReadRequest;
    FourDigits();
    if rounds <= 16777215 {
      SixBitStringReadsBack(rounds, 4);
      assert ExtendedDes(SixBitString(rounds, 4), SomeSalt(4)).WellFormed();
    }
    forall s: Salt | s.ExtendedDes? && s.WellFormed() && SixBitNumber(s.count) == rounds
      ensures rounds <= 16777215
    {
      SixBitNumberBound(s.count);
    }
  }
}
