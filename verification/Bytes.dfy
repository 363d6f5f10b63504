/** Octets, the exclusive-or of equally long octet strings, and cutting an octet string into blocks. */
module Bytes {

  newtype byte = b: int | 0 <= b < 256

  /** The exclusive-or of two numbers, bit by bit from the lowest. */
  function BitXor(a: nat, b: nat): nat {
    if a == 0 && b == 0 then 0 else (a + b) % 2 + 2 * BitXor(a / 2, b / 2)
  }

  lemma {:induction false} BitXorBound(a: nat, b: nat, bound: nat)
    requires a < 2 * bound && b < 2 * bound
    requires bound in {1, 2, 4, 8, 16, 32, 64, 128}
    ensures BitXor(a, b) < 2 * bound
    decreases bound
  {
    if bound == 1 {
      assert BitXor(a / 2, b / 2) == 0;
    } else {
      BitXorBound(a / 2, b / 2, bound / 2);
    }
  }

  lemma {:induction false} BitXorCommutes(a: nat, b: nat)
    ensures BitXor(a, b) == BitXor(b, a)
  {
    if a != 0 || b != 0 {
      BitXorCommutes(a / 2, b / 2);
    }
  }

  lemma {:induction false} BitXorSelf(a: nat)
    ensures BitXor(a, a) == 0 && BitXor(a, 0) == a
  {
    if a != 0 {
      BitXorSelf(a / 2);
    }
  }

  lemma {:induction false} BitXorAssociates(a: nat, b: nat, c: nat)
    ensures BitXor(BitXor(a, b), c) == BitXor(a, BitXor(b, c))
    decreases a + b + c
  {
    hide BitXor;
    if a == 0 && b == 0 && c == 0 {
      BitXorSelf(0);
    } else {
      var ab, bc := BitXor(a, b), BitXor(b, c);
      BitXorSplits(a, b);
      BitXorSplits(b, c);
      BitXorSplits(ab, c);
      BitXorSplits(a, bc);
      SameParity(a, b, c, ab, bc);
      BitXorAssociates(a / 2, b / 2, c / 2);
    }
  }

  lemma SameParity(a: nat, b: nat, c: nat, ab: nat, bc: nat)
    requires ab % 2 == (a + b) % 2 && bc % 2 == (b + c) % 2
    ensures (ab + c) % 2 == (a + bc) % 2
  {
  }

  lemma BitXorSplits(a: nat, b: nat)
    ensures BitXor(a, b) % 2 == (a + b) % 2
    ensures BitXor(a, b) / 2 == BitXor(a / 2, b / 2)
    ensures BitXor(a, b) == (a + b) % 2 + 2 * BitXor(a / 2, b / 2)
  {
  }

  function ByteXor(a: byte, b: byte): byte {
    BitXorBound(a as nat, b as nat, 128);
    BitXor(a as nat, b as nat) as byte
  }

  lemma ByteXorLaws(a: byte, b: byte, c: byte)
    ensures ByteXor(a, b) == ByteXor(b, a)
    ensures ByteXor(ByteXor(a, b), b) == a
    ensures ByteXor(a, c) == ByteXor(ByteXor(a, b), ByteXor(b, c))
  {
    var x, y, z := a as nat, b as nat, c as nat;
    BitXorCommutes(x, y);
    BitXorAssociates(x, y, y);
    BitXorSelf(x);
    BitXorSelf(y);
    BitXorAssociates(x, y, BitXor(y, z));
    BitXorAssociates(y, y, z);
    BitXorCommutes(0, z);
    BitXorSelf(z);
  }

  function Xor(a: seq<byte>, b: seq<byte>): (r: seq<byte>)
    requires |a| == |b|
    ensures |r| == |a|
  {
    seq(|a|, i requires 0 <= i < |a| => ByteXor(a[i], b[i]))
  }

  function Zeros(n: nat): (r: seq<byte>)
    ensures |r| == n && forall i | 0 <= i < n :: r[i] == 0
  {
    seq(n, _ => 0)
  }

  lemma XorCancels(a: seq<byte>, b: seq<byte>)
    requires |a| == |b|
    ensures Xor(Xor(a, b), b) == a
    ensures Xor(b, Xor(b, a)) == a
  {
    forall i | 0 <= i < |a|
      ensures ByteXor(ByteXor(a[i], b[i]), b[i]) == a[i] == ByteXor(b[i], ByteXor(b[i], a[i]))
    {
      ByteXorLaws(a[i], b[i], b[i]);
      ByteXorLaws(b[i], a[i], a[i]);
      ByteXorLaws(b[i], ByteXor(b[i], a[i]), a[i]);
    }
  }

  /** Whether bit k of a number is set, counted from the lowest. */
  predicate HasBit(a: nat, k: nat) {
    if k == 0 then a % 2 == 1 else HasBit(a / 2, k - 1)
  }

  lemma {:induction false} BitXorBits(a: nat, b: nat, k: nat)
    ensures HasBit(BitXor(a, b), k) <==> HasBit(a, k) != HasBit(b, k)
  {
    hide BitXor;
    BitXorSplits(a, b);
    if k > 0 {
      BitXorBits(a / 2, b / 2, k - 1);
    }
  }

  /** The exclusive-or sets exactly the bits that are set in one operand only. */
  lemma XorBits(a: seq<byte>, b: seq<byte>, i: nat, k: nat)
    requires i < |a| == |b|
    ensures HasBit(Xor(a, b)[i] as nat, k) <==> HasBit(a[i] as nat, k) != HasBit(b[i] as nat, k)
  {
    BitXorBits(a[i] as nat, b[i] as nat, k);
  }

  /** Swapping one operand moves the result by the difference of the old and the new operand. */
  lemma XorDifference(a: seq<byte>, b: seq<byte>, b': seq<byte>)
    requires |a| == |b| == |b'|
    ensures Xor(a, b') == Xor(Xor(a, b), Xor(b, b'))
    ensures Xor(b', a) == Xor(Xor(b, a), Xor(b, b'))
  {
    forall i | 0 <= i < |a|
      ensures ByteXor(a[i], b'[i]) == ByteXor(ByteXor(a[i], b[i]), ByteXor(b[i], b'[i]))
      ensures ByteXor(b'[i], a[i]) == ByteXor(ByteXor(b[i], a[i]), ByteXor(b[i], b'[i]))
    {
      ByteXorLaws(a[i], b[i], b'[i]);
      ByteXorLaws(b'[i], a[i], a[i]);
    }
  }

  lemma XorInjective(a: seq<byte>, b: seq<byte>, b': seq<byte>)
    requires |a| == |b| == |b'|
    requires Xor(b, a) == Xor(b', a)
    ensures b == b'
  {
    XorCancels(b, a);
    XorCancels(b', a);
  }

  /** The block sizes of the modelled ciphers, in octets. */
  predicate IsBlockSize(n: nat) {
    n == 8 || n == 16
  }

  predicate Aligned(n: nat, s: seq<byte>)
    requires IsBlockSize(n)
  {
    |s| % n == 0
  }

  /** The consecutive n-octet blocks of s; the last one is shorter when s is not aligned. */
  function Blocks(n: nat, s: seq<byte>): (r: seq<seq<byte>>)
    requires IsBlockSize(n)
    ensures forall i | 0 <= i < |r| :: 0 < |r[i]| <= n
    ensures forall i | 0 <= i < |r| - 1 :: |r[i]| == n
    ensures Aligned(n, s) ==> forall i | 0 <= i < |r| :: |r[i]| == n
    ensures s == [] <==> r == []
  {
    if s == [] then []
    else if |s| <= n then [s]
    else [s[..n]] + Blocks(n, s[n..])
  }

  /** Block i stands i blocks from the front. */
  lemma {:induction false} BlockAt(n: nat, s: seq<byte>, i: nat)
    requires IsBlockSize(n)
    ensures i < |Blocks(n, s)| <==> i * n < |s|
    ensures i * n < |s| ==> Blocks(n, s)[i] == s[i * n..][..if n < |s| - i * n then n else |s| - i * n]
    decreases i
  {
    if i > 0 {
      BlockAfter(n, i);
      if |s| > n {
        var rest := s[n..];
        BlockAt(n, rest, i - 1);
        assert (i - 1) * n < |rest| ==> rest[(i - 1) * n..] == s[i * n..];
      }
    }
  }

  lemma BlockAfter(n: nat, i: nat)
    requires i > 0
    ensures i * n == (i - 1) * n + n
    ensures (i - 1) * n >= 0
  {
  }

  lemma {:induction false} BlocksDetermine(n: nat, a: seq<byte>, b: seq<byte>)
    requires IsBlockSize(n)
    requires Blocks(n, a) == Blocks(n, b)
    ensures a == b
  {
    if a != [] && b != [] {
      assert Blocks(n, a)[0] == Blocks(n, b)[0];
      if |a| > n {
        assert Blocks(n, a)[1..] == Blocks(n, a[n..]);
        assert |b| > n;
        assert Blocks(n, b)[1..] == Blocks(n, b[n..]);
        BlocksDetermine(n, a[n..], b[n..]);
        assert a == a[..n] + a[n..];
        assert b == b[..n] + b[n..];
      }
    }
  }

  lemma {:induction false} BlocksOfEqualLengths(n: nat, a: seq<byte>, b: seq<byte>)
    requires IsBlockSize(n)
    requires |a| == |b|
    ensures |Blocks(n, a)| == |Blocks(n, b)|
    ensures forall i | 0 <= i < |Blocks(n, a)| :: |Blocks(n, a)[i]| == |Blocks(n, b)[i]|
  {
    if |a| > n {
      BlocksOfEqualLengths(n, a[n..], b[n..]);
    }
  }
}
