/** What the string operations yield, apart from how they are computed. */
module RustTextMeaning {
  import opened RustText
  import opened Wrappers

  // ---------- Letter case ----------

  const UPPER := "ABCDEFGHIJKLMNOPQRSTUVWXYZ"
  const LOWER := "abcdefghijklmnopqrstuvwxyz"

  lemma AlphabetsInOrder(k: nat)
    requires k < 26
    ensures UPPER[k] as int == 0x41 + k && LOWER[k] as int == 0x61 + k
  {
  }

  /** Folding the case of one character. */
  ghost predicate FoldsTo(c: char, d: char) {
    (c !in UPPER && d == c) || exists k :: 0 <= k < 26 && c == UPPER[k] && d == LOWER[k]
  }

  ghost predicate SameUpToCase(s: string, lower: string) {
    |s| == |lower| && forall i | 0 <= i < |s| :: FoldsTo(s[i], lower[i])
  }

  lemma LowerCharIff(c: char, d: char)
    ensures LowerChar(c) == d <==> FoldsTo(c, d)
  {
    forall k | 0 <= k < 26
      ensures UPPER[k] as int == 0x41 + k && LOWER[k] as int == 0x61 + k
    {
      AlphabetsInOrder(k);
    }
    if 'A' <= c <= 'Z' {
      assert c == UPPER[c as int - 0x41];
    }
  }

  /** Lower case exchanges the twenty-six letters and keeps every other character. */
  lemma LowercaseIff(s: string, lower: string)
    ensures ToAsciiLowercase(s) == lower <==> SameUpToCase(s, lower)
  {
    forall i | 0 <= i < |s| && i < |lower|
      ensures LowerChar(s[i]) == lower[i] <==> FoldsTo(s[i], lower[i])
    {
      LowerCharIff(s[i], lower[i]);
    }
    hide LowerChar, FoldsTo;
  }

  // ---------- Trimming ----------

  /** The code points with the Unicode property White_Space. */
  const WHITE_SPACE := {
    0x9, 0xA, 0xB, 0xC, 0xD, 0x20, 0x85, 0xA0, 0x1680,
    0x2000, 0x2001, 0x2002, 0x2003, 0x2004, 0x2005, 0x2006, 0x2007, 0x2008, 0x2009, 0x200A,
    0x2028, 0x2029, 0x202F, 0x205F, 0x3000}

  lemma WhitespaceIff(c: char)
    ensures IsWhitespace(c) <==> c as int in WHITE_SPACE
  {
  }

  /** t stands in s between white space, and neither begins nor ends in white space. */
  ghost predicate StandsFromTo(s: string, t: string, i: nat, j: nat) {
    && i <= j <= |s| && t == s[i..j]
    && (forall k | 0 <= k < i :: IsWhitespace(s[k]))
    && (forall k | j <= k < |s| :: IsWhitespace(s[k]))
    && (t != "" ==> !IsWhitespace(s[i]) && !IsWhitespace(s[j - 1]))
  }

  ghost predicate IsTrimmed(s: string, t: string) {
    exists i: nat, j: nat :: StandsFromTo(s, t, i, j)
  }

  lemma {:induction false} TrimStartStops(s: string) returns (i: nat)
    ensures i <= |s| && TrimStart(s) == s[i..]
    ensures forall k | 0 <= k < i :: IsWhitespace(s[k])
    ensures i < |s| ==> !IsWhitespace(s[i])
  {
    hide IsWhitespace;
    if s != "" && IsWhitespace(s[0]) {
      i := TrimStartStops(s[1..]);
      i := i + 1;
    } else {
      i := 0;
    }
  }

  lemma {:induction false} TrimEndStops(s: string) returns (j: nat)
    ensures j <= |s| && TrimEnd(s) == s[..j]
    ensures forall k | j <= k < |s| :: IsWhitespace(s[k])
    ensures j > 0 ==> !IsWhitespace(s[j - 1])
  {
    hide IsWhitespace;
    if s != "" && IsWhitespace(s[|s| - 1]) {
      j := TrimEndStops(s[..|s| - 1]);
    } else {
      j := |s|;
    }
  }

  lemma TrimStands(s: string) returns (i: nat, j: nat)
    ensures StandsFromTo(s, Trim(s), i, j)
  {
    hide IsWhitespace, TrimStart, TrimEnd;
    i := TrimStartStops(s);
    var rest := s[i..];
    j := TrimEndStops(rest);
    assert forall k | i + j <= k < |s| :: s[k] == rest[k - i];
    assert j > 0 ==> rest[j - 1] == s[i + j - 1];
    j := i + j;
  }

  lemma StandsOnce(s: string, t: string, i: nat, j: nat, t': string, i': nat, j': nat)
    requires StandsFromTo(s, t, i, j) && StandsFromTo(s, t', i', j')
    ensures t == t'
  {
    hide IsWhitespace;
    if t != "" {
      assert i' <= i < j'  && i' < j <= j';
    }
    if t' != "" {
      assert i <= i' < j && i < j' <= j;
    }
  }

  /** Trimming yields the one part that stands between white space and has none at its ends. */
  lemma TrimIff(s: string, t: string)
    ensures Trim(s) == t <==> IsTrimmed(s, t)
  {
    hide Trim, StandsFromTo;
    var i, j := TrimStands(s);
    if i': nat, j': nat :| StandsFromTo(s, t, i', j') {
      StandsOnce(s, Trim(s), i, j, t, i', j');
    }
  }

  // ---------- Splitting ----------

  function Joined(pieces: seq<string>, c: char): string
    requires pieces != []
  {
    if |pieces| == 1 then pieces[0] else pieces[0] + [c] + Joined(pieces[1..], c)
  }

  lemma {:induction false} SplitOfJoined(pieces: seq<string>, c: char)
    requires pieces != [] && forall p <- pieces :: c !in p
    ensures Split(Joined(pieces, c), c) == pieces
  {
    assert c !in pieces[0];
    if |pieces| == 1 {
      assert Split(pieces[0], c) == [pieces[0]];
    } else {
      SplitOfJoined(pieces[1..], c);
      SplitAfter(pieces[0], c, Joined(pieces[1..], c));
    }
  }

  lemma {:induction false} JoinedOfSplit(s: string, c: char)
    ensures Joined(Split(s, c), c) == s
    ensures forall p <- Split(s, c) :: c !in p
    decreases |s|
  {
    if SplitOnce(s, c).Some? {
      var (left, right) := SplitOnce(s, c).value;
      JoinedOfSplit(right, c);
      var pieces := Split(s, c);
      assert pieces[1..] == Split(right, c);
      assert forall p <- pieces :: p == left || p in pieces[1..];
    }
  }

  /** The pieces are the one list of strings without the separator that gives the string when joined by it. */
  lemma SplitIff(s: string, c: char, pieces: seq<string>)
    ensures Split(s, c) == pieces
       <==> pieces != [] && (forall p <- pieces :: c !in p) && Joined(pieces, c) == s
  {
    JoinedOfSplit(s, c);
    if pieces != [] && (forall p <- pieces :: c !in p) && Joined(pieces, c) == s {
      SplitOfJoined(pieces, c);
    }
  }

  // ---------- Numbers ----------

  predicate IsZeros(s: string) {
    forall i | 0 <= i < |s| :: s[i] == '0'
  }

  /** The decimal form of n behind an optional plus sign and any number of zeros. */
  ghost predicate WritesNumber(s: string, n: nat) {
    exists plus: string, zeros: string ::
      (plus == "" || plus == "+") && IsZeros(zeros) && s == plus + (zeros + Decimal(n))
  }

  lemma {:induction false} DigitsArePaddedDecimal(d: string) returns (zeros: string)
    requires d != "" && AllDigits(d)
    ensures IsZeros(zeros) && d == zeros + Decimal(Digits(d))
  {
    var front, last := d[..|d| - 1], d[|d| - 1];
    zeros := "";
    if front != "" {
      zeros := DigitsArePaddedDecimal(front);
      if Digits(front) == 0 {
        zeros := zeros + "0";
      }
    } else {
      assert Digits(d) < 10;
    }
  }

  lemma {:induction false} DigitsOfPadded(zeros: string, d: string)
    requires IsZeros(zeros) && AllDigits(d)
    ensures AllDigits(zeros + d) && Digits(zeros + d) == Digits(d)
    decreases |zeros| + |d|
  {
    var s := zeros + d;
    if d != "" {
      var front := d[..|d| - 1];
      DigitsOfPadded(zeros, front);
      assert s[..|s| - 1] == zeros + front;
    } else if zeros != "" {
      var fewer := zeros[..|zeros| - 1];
      DigitsOfPadded(fewer, "");
      assert fewer + "" == fewer && zeros + "" == zeros;
    }
  }

  lemma SignedIsRead(plus: string, digits: string, max: nat)
    requires (plus == "" || plus == "+") && digits != "" && AllDigits(digits) && Digits(digits) <= max
    ensures ParseUnsigned(plus + digits, max) == Some(Digits(digits))
  {
    hide Digits;
    assert digits[0] != '+';
    assert plus == "" ==> plus + digits == digits;
    assert plus == "+" ==> (plus + digits)[1..] == digits;
  }

  lemma WrittenIsRead(s: string, max: nat, n: nat)
    requires n <= max && WritesNumber(s, n)
    ensures ParseUnsigned(s, max) == Some(n)
  {
    hide Digits, Decimal, ParseUnsigned, AllDigits, IsZeros;
    var plus: string, zeros: string :|
      (plus == "" || plus == "+") && IsZeros(zeros) && s == plus + (zeros + Decimal(n));
    DecimalReadsBack(n);
    DigitsOfPadded(zeros, Decimal(n));
    SignedIsRead(plus, zeros + Decimal(n), max);
  }

  /** A number is read from its decimal forms and from nothing else. */
  lemma UnsignedIff(s: string, max: nat, n: nat)
    ensures ParseUnsigned(s, max) == Some(n) <==> n <= max && WritesNumber(s, n)
  {
    hide Digits, Decimal, AllDigits, IsZeros;
    if ParseUnsigned(s, max) == Some(n) {
      var plus := if s != "" && s[0] == '+' then "+" else "";
      var zeros := DigitsArePaddedDecimal(s[|plus|..]);
      assert s == plus + s[|plus|..];
    }
    if n <= max && WritesNumber(s, n) {
      WrittenIsRead(s, max, n);
    }
  }
}
