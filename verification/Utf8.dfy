/** Well-formed UTF-8, by the grammar of section 4 of RFC 3629. */
module Utf8 {
  import opened Bytes

  predicate IsTail(b: byte) {
    0x80 <= b <= 0xBF
  }

  /** The number of octets of the character at the front of s; zero when no well-formed character is there. */
  function CharLength(s: seq<byte>): (n: nat)
    ensures n <= |s| && n <= 4
    ensures forall i | 1 <= i < n :: IsTail(s[i])
    ensures n == 1 <==> s != [] && s[0] < 0x80
  {
    if s == [] then 0
    else
      var first, second := s[0] as int, if |s| >= 2 then s[1] as int else 0;
      if first <= 0x7F then 1
      else if |s| >= 2 && 0xC2 <= first <= 0xDF && IsTail(s[1]) then 2
      else if |s| >= 3 && IsTail(s[1]) && IsTail(s[2])
           && ((first == 0xE0 && 0xA0 <= second) || 0xE1 <= first <= 0xEC || (first == 0xED && second <= 0x9F)
               || 0xEE <= first <= 0xEF) then 3
      else if |s| >= 4 && IsTail(s[1]) && IsTail(s[2]) && IsTail(s[3])
           && ((first == 0xF0 && 0x90 <= second) || 0xF1 <= first <= 0xF3 || (first == 0xF4 && second <= 0x8F)) then 4
      else 0
  }

  predicate Valid(s: seq<byte>) {
    s == [] || (CharLength(s) > 0 && Valid(s[CharLength(s)..]))
  }

  /** An ASCII octet neither ends nor starts inside a character, so it cuts the string in two. */
  lemma {:induction false} ValidAroundAscii(a: seq<byte>, c: byte, b: seq<byte>)
    requires c < 0x80
    ensures Valid(a + [c] + b) <==> Valid(a) && Valid(b)
    decreases |a|
  {
    var s := a + [c] + b;
    if a == [] {
      assert s[1..] == b;
    } else {
      CharLengthBeforeAscii(a, c, b);
      var n := CharLength(a);
      if n > 0 {
        assert s[n..] == a[n..] + [c] + b;
        ValidAroundAscii(a[n..], c, b);
      }
    }
  }

  lemma CharLengthBeforeAscii(a: seq<byte>, c: byte, b: seq<byte>)
    requires a != [] && c < 0x80
    ensures CharLength(a + [c] + b) == CharLength(a)
  {
    var s := a + [c] + b;
    assert !IsTail(c) && s[|a|] == c;
    assert forall i | 0 <= i < |a| :: s[i] == a[i];
  }

  // ---------- The grammar describes exactly the encodings of scalar values ----------

  /** A Unicode character number that is not a surrogate. */
  predicate IsScalar(v: int) {
    0 <= v < 0xD800 || 0xE000 <= v < 0x110000
  }

  /** Section 3 of RFC 3629. */
  function EncodeScalar(v: int): (s: seq<byte>)
    requires IsScalar(v)
    ensures 1 <= |s| <= 4
  {
    if v < 0x80 then [v as byte]
    else if v < 0x800 then [(0xC0 + v / 64) as byte, (0x80 + v % 64) as byte]
    else if v < 0x10000 then
      [(0xE0 + v / 64 / 64) as byte, (0x80 + v / 64 % 64) as byte, (0x80 + v % 64) as byte]
    else
      [(0xF0 + v / 64 / 64 / 64) as byte, (0x80 + v / 64 / 64 % 64) as byte,
       (0x80 + v / 64 % 64) as byte, (0x80 + v % 64) as byte]
  }

  function EncodeScalars(vs: seq<int>): seq<byte>
    requires forall v <- vs :: IsScalar(v)
  {
    if vs == [] then [] else EncodeScalar(vs[0]) + EncodeScalars(vs[1..])
  }

  /** The number that a character of the given length stands for. */
  function Scalar(s: seq<byte>, n: nat): int
    requires 1 <= n <= 4 && n <= |s|
  {
    if n == 1 then s[0] as int
    else if n == 2 then (s[0] as int - 0xC0) * 64 + (s[1] as int - 0x80)
    else if n == 3 then (s[0] as int - 0xE0) * 4096 + (s[1] as int - 0x80) * 64 + (s[2] as int - 0x80)
    else (s[0] as int - 0xF0) * 262144 + (s[1] as int - 0x80) * 4096 + (s[2] as int - 0x80) * 64 + (s[3] as int - 0x80)
  }

  lemma LastDigit(q: int, d: int)
    requires 0 <= d < 64
    ensures (q * 64 + d) / 64 == q && (q * 64 + d) % 64 == d
  {
  }

  lemma TwoOctets(x: int, y: int)
    requires 0xC2 <= x <= 0xDF && 0x80 <= y <= 0xBF
    ensures var v := (x - 0xC0) * 64 + (y - 0x80);
      0x80 <= v < 0x800 && 0xC0 + v / 64 == x && 0x80 + v % 64 == y
  {
  }

  lemma ThreeOctets(x: int, y: int, z: int)
    requires 0xE0 <= x <= 0xEF && 0x80 <= y <= 0xBF && 0x80 <= z <= 0xBF
    requires x == 0xE0 ==> 0xA0 <= y
    requires x == 0xED ==> y <= 0x9F
    ensures var v := (x - 0xE0) * 4096 + (y - 0x80) * 64 + (z - 0x80);
      && 0x800 <= v < 0x10000 && IsScalar(v)
      && 0xE0 + v / 64 / 64 == x && 0x80 + v / 64 % 64 == y && 0x80 + v % 64 == z
  {
    LastDigit((x - 0xE0) * 64 + (y - 0x80), z - 0x80);
    LastDigit(x - 0xE0, y - 0x80);
  }

  lemma FourOctets(w: int, x: int, y: int, z: int)
    requires 0xF0 <= w <= 0xF4 && 0x80 <= x <= 0xBF && 0x80 <= y <= 0xBF && 0x80 <= z <= 0xBF
    requires w == 0xF0 ==> 0x90 <= x
    requires w == 0xF4 ==> x <= 0x8F
    ensures var v := (w - 0xF0) * 262144 + (x - 0x80) * 4096 + (y - 0x80) * 64 + (z - 0x80);
      && 0x10000 <= v < 0x110000
      && 0xF0 + v / 64 / 64 / 64 == w && 0x80 + v / 64 / 64 % 64 == x && 0x80 + v / 64 % 64 == y && 0x80 + v % 64 == z
  {
    LastDigit(((w - 0xF0) * 64 + (x - 0x80)) * 64 + (y - 0x80), z - 0x80);
    LastDigit((w - 0xF0) * 64 + (x - 0x80), y - 0x80);
    LastDigit(w - 0xF0, x - 0x80);
  }

  lemma CharIsScalar(s: seq<byte>)
    requires CharLength(s) > 0
    ensures IsScalar(Scalar(s, CharLength(s)))
    ensures EncodeScalar(Scalar(s, CharLength(s))) == s[..CharLength(s)]
  {
    var n := CharLength(s);
    match n
    case 1 =>
    case 2 => TwoOctets(s[0] as int, s[1] as int);
    case 3 => ThreeOctets(s[0] as int, s[1] as int, s[2] as int);
    case 4 => FourOctets(s[0] as int, s[1] as int, s[2] as int, s[3] as int);
  }

  lemma ScalarIsChar(v: int, rest: seq<byte>)
    requires IsScalar(v)
    ensures CharLength(EncodeScalar(v) + rest) == |EncodeScalar(v)|
  {
  }

  lemma {:induction false} EncodedIsValid(vs: seq<int>)
    requires forall v <- vs :: IsScalar(v)
    ensures Valid(EncodeScalars(vs))
  {
    if vs != [] {
      var head, tail := EncodeScalar(vs[0]), EncodeScalars(vs[1..]);
      EncodedIsValid(vs[1..]);
      ScalarIsChar(vs[0], tail);
      assert (head + tail)[|head|..] == tail;
    }
  }

  lemma {:induction false} ValidIsEncoded(s: seq<byte>) returns (vs: seq<int>)
    requires Valid(s)
    ensures forall v <- vs :: IsScalar(v)
    ensures EncodeScalars(vs) == s
  {
    if s == [] {
      vs := [];
    } else {
      var n := CharLength(s);
      CharIsScalar(s);
      hide EncodeScalar, CharLength, Scalar;
      var rest := ValidIsEncoded(s[n..]);
      vs := [Scalar(s, n)] + rest;
      assert vs[1..] == rest;
      assert s == s[..n] + s[n..];
    }
  }

  /** A string is well-formed exactly when it encodes some sequence of scalar values. */
  lemma ValidIffEncoded(s: seq<byte>)
    ensures Valid(s) <==> exists vs: seq<int> :: (forall v <- vs :: IsScalar(v)) && EncodeScalars(vs) == s
  {
    if Valid(s) {
      var vs := ValidIsEncoded(s);
    }
    forall vs: seq<int> | (forall v <- vs :: IsScalar(v)) && EncodeScalars(vs) == s
      ensures Valid(s)
    {
      EncodedIsValid(vs);
    }
  }
}
