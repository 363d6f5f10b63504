/** The string operations of the Rust standard library that the parsers of options, types and headers use. */
module RustText {
  import opened Wrappers

  // ---------- str::trim ----------

  /** The Unicode property White_Space. */
  predicate IsWhitespace(c: char) {
    || '\U{9}' <= c <= '\U{D}' || c == ' ' || c == '\U{85}' || c == '\U{A0}'
    || c == '\U{1680}' || '\U{2000}' <= c <= '\U{200A}' || c == '\U{2028}' || c == '\U{2029}'
    || c == '\U{202F}' || c == '\U{205F}' || c == '\U{3000}'
  }

  function TrimStart(s: string): (r: string)
    ensures |r| <= |s|
  {
    if s != "" && IsWhitespace(s[0]) then TrimStart(s[1..]) else s
  }

  function TrimEnd(s: string): (r: string)
    ensures |r| <= |s|
  {
    if s != "" && IsWhitespace(s[|s| - 1]) then TrimEnd(s[..|s| - 1]) else s
  }

  function Trim(s: string): string {
    TrimEnd(TrimStart(s))
  }

  lemma {:induction false} TrimStartAppended(s: string, c: char)
    requires IsWhitespace(c)
    ensures TrimStart(s + [c]) == if TrimStart(s) == "" then "" else TrimStart(s) + [c]
  {
    hide IsWhitespace;
    if s != "" {
      assert (s + [c])[1..] == s[1..] + [c];
      TrimStartAppended(s[1..], c);
    } else {
      assert s + [c] == [c] && [c][1..] == "";
    }
  }

  lemma TrimEndAppended(s: string, c: char)
    requires IsWhitespace(c)
    ensures TrimEnd(s + [c]) == TrimEnd(s)
  {
    assert (s + [c])[..|s|] == s;
  }

  /** Trimming one end first changes nothing. */
  lemma {:induction false} TrimAbsorbs(s: string)
    ensures Trim(TrimStart(s)) == Trim(s)
    ensures Trim(TrimEnd(s)) == Trim(s)
    decreases |s|
  {
    TrimStartTwice(s);
    if s != "" && IsWhitespace(s[|s| - 1]) {
      var front, last := s[..|s| - 1], s[|s| - 1];
      assert s == front + [last];
      TrimStartAppended(front, last);
      TrimEndAppended(TrimStart(front), last);
      TrimAbsorbs(front);
    }
  }

  lemma {:induction false} TrimStartTwice(s: string)
    ensures TrimStart(TrimStart(s)) == TrimStart(s)
  {
    if s != "" && IsWhitespace(s[0]) {
      TrimStartTwice(s[1..]);
    }
  }

  /** A character that is not white space shields what is on its other side from trimming. */
  lemma TrimAround(a: string, c: char, b: string)
    requires !IsWhitespace(c)
    ensures Trim(a + [c] + b) == TrimStart(a) + [c] + TrimEnd(b)
  {
    hide TrimStart, TrimEnd, IsWhitespace;
    TrimStartUpTo(a, [c] + b);
    assert a + [c] + b == a + ([c] + b);
    TrimEndDownTo(TrimStart(a) + [c], b);
    assert TrimStart(a) + ([c] + b) == TrimStart(a) + [c] + b;
  }

  lemma {:induction false} TrimStartUpTo(a: string, rest: string)
    requires rest != "" && !IsWhitespace(rest[0])
    ensures TrimStart(a + rest) == TrimStart(a) + rest
  {
    hide IsWhitespace;
    if a == "" {
      assert a + rest == rest;
    } else {
      assert (a + rest)[1..] == a[1..] + rest;
      TrimStartUpTo(a[1..], rest);
    }
  }

  lemma {:induction false} TrimEndDownTo(front: string, b: string)
    requires front != "" && !IsWhitespace(front[|front| - 1])
    ensures TrimEnd(front + b) == front + TrimEnd(b)
    decreases |b|
  {
    hide IsWhitespace;
    if b == "" {
      assert front + b == front;
    } else {
      assert (front + b)[..|front + b| - 1] == front + b[..|b| - 1];
      TrimEndDownTo(front, b[..|b| - 1]);
    }
  }

  lemma {:induction false} TrimStartIsPart(s: string, c: char)
    ensures c in TrimStart(s) ==> c in s
  {
    if s != "" && IsWhitespace(s[0]) {
      TrimStartIsPart(s[1..], c);
    }
  }

  // ---------- str::to_ascii_lowercase ----------

  function LowerChar(c: char): char {
    if 'A' <= c <= 'Z' then ((c as int) + 32) as char else c
  }

  function ToAsciiLowercase(s: string): (r: string)
    ensures |r| == |s|
  {
    seq(|s|, i requires 0 <= i < |s| => LowerChar(s[i]))
  }

  // ---------- str::split_once and str::split ----------

  /** The position of the first c in s, or |s|. */
  function Find(s: string, c: char): (r: nat)
    ensures r <= |s|
    ensures r < |s| ==> s[r] == c
    ensures c !in s[..r]
  {
    if s == "" || s[0] == c then 0 else
    var r := 1 + Find(s[1..], c);
    assert s[..r] == [s[0]] + s[1..][..r - 1];
    r
  }

  function SplitOnce(s: string, c: char): (r: Option<(string, string)>)
    ensures r.None? <==> c !in s
    ensures r.Some? ==> s == r.value.0 + [c] + r.value.1 && c !in r.value.0
  {
    var i := Find(s, c);
    if i == |s| then assert s[..i] == s; None else Some((s[..i], s[i + 1..]))
  }

  /** What the split point is does not depend on what follows it. */
  lemma SplitOnceAt(left: string, c: char, right: string)
    requires c !in left
    ensures SplitOnce(left + [c] + right, c) == Some((left, right))
  {
    var s := left + [c] + right;
    assert s[|left|] == c;
    assert s[..|left|] == left && s[|left| + 1..] == right;
  }

  function Split(s: string, c: char): (r: seq<string>)
    ensures r != []
    decreases |s|
  {
    match SplitOnce(s, c)
    case None => [s]
    case Some((left, right)) => [left] + Split(right, c)
  }

  lemma SplitAfter(left: string, c: char, rest: string)
    requires c !in left
    ensures Split(left + [c] + rest, c) == [left] + Split(rest, c)
  {
    SplitOnceAt(left, c, rest);
  }

  lemma SplitPrepended(left: string, c: char, right: string, b: string)
    requires c !in left
    requires Split(right + [c] + b, c) == Split(right, c) + Split(b, c)
    ensures Split(left + [c] + right + [c] + b, c) == Split(left + [c] + right, c) + Split(b, c)
  {
    hide Split;
    var tail := right + [c] + b;
    Regroup(left + [c], right, [c], b);
    SplitAfter(left, c, tail);
    SplitAfter(left, c, right);
    Regroup([], [left], Split(right, c), Split(b, c));
  }

  lemma Regroup<T>(a: seq<T>, b: seq<T>, c: seq<T>, d: seq<T>)
    ensures a + b + c + d == a + (b + c + d)
    ensures b + c + d == b + (c + d)
  {
  }

  lemma {:induction false} SplitConcat(a: string, c: char, b: string)
    ensures Split(a + [c] + b, c) == Split(a, c) + Split(b, c)
    decreases |a|
  {
    var first := SplitOnce(a, c);
    if first == None {
      SplitAfter(a, c, b);
    } else {
      hide Split;
      var (left, right) := first.value;
      SplitConcat(right, c, b);
      SplitPrepended(left, c, right, b);
    }
  }

  // ---------- str::parse for unsigned integers ----------

  predicate AllDigits(s: string) {
    forall i | 0 <= i < |s| :: '0' <= s[i] <= '9'
  }

  function Digits(s: string): nat
    requires AllDigits(s)
  {
    if s == "" then 0
    else 10 * Digits(s[..|s| - 1]) + (s[|s| - 1] as int - '0' as int)
  }

  /** A number of at most `max`: an optional plus sign, then at least one digit, leading zeros allowed. */
  function ParseUnsigned(s: string, max: nat): (r: Option<nat>)
    ensures r.Some? ==> r.value <= max
  {
    var digits := if s != "" && s[0] == '+' then s[1..] else s;
    if digits == "" || !AllDigits(digits) then None
    else
      var value := Digits(digits);
      if value > max then None else Some(value)
  }

  // ---------- Decimal notation ----------

  function Digit(d: nat): char
    requires d < 10
  {
    ('0' as int + d) as char
  }

  function Decimal(n: nat): string {
    if n < 10 then [Digit(n)] else Decimal(n / 10) + [Digit(n % 10)]
  }

  lemma {:induction false} DecimalReadsBack(n: nat)
    ensures Decimal(n) != "" && AllDigits(Decimal(n)) && Digits(Decimal(n)) == n
  {
    var s := Decimal(n);
    if n >= 10 {
      DecimalReadsBack(n / 10);
      assert s[..|s| - 1] == Decimal(n / 10);
    } else {
      assert s[..|s| - 1] == "";
    }
  }

  // ---------- match on a string ----------

  /** The first arm of a match whose pattern is the given string. */
  function Lookup<V>(arms: seq<(string, V)>, s: string): Option<V> {
    if arms == [] then None
    else if arms[0].0 == s then Some(arms[0].1)
    else Lookup(arms[1..], s)
  }

  /** A match arm of several patterns. */
  predicate MatchesAny(patterns: seq<string>, s: string) {
    patterns != [] && (patterns[0] == s || MatchesAny(patterns[1..], s))
  }

  lemma {:induction false} MatchesPattern(patterns: seq<string>, i: nat)
    requires i < |patterns|
    ensures MatchesAny(patterns, patterns[i])
  {
    if i > 0 {
      MatchesPattern(patterns[1..], i - 1);
    }
  }

  lemma {:induction false} LookupFindsArm<V>(arms: seq<(string, V)>, s: string)
    ensures Lookup(arms, s).Some? ==>
              exists i :: 0 <= i < |arms| && arms[i].0 == s && Lookup(arms, s) == Some(arms[i].1)
  {
    if arms != [] && arms[0].0 != s && Lookup(arms, s).Some? {
      LookupFindsArm(arms[1..], s);
      var i :| 0 <= i < |arms[1..]| && arms[1..][i].0 == s && Lookup(arms[1..], s) == Some(arms[1..][i].1);
      assert arms[i + 1] == arms[1..][i];
    }
  }

  lemma {:induction false} LookupOfArm<V>(arms: seq<(string, V)>, i: nat)
    requires i < |arms|
    requires forall j | 0 <= j < i :: arms[j].0 != arms[i].0
    ensures Lookup(arms, arms[i].0) == Some(arms[i].1)
  {
    if i > 0 {
      assert arms[0].0 != arms[i].0;
      LookupOfArm(arms[1..], i - 1);
    }
  }
}
