/** PKCS padding to whole blocks: section 6.3 of RFC 5652. */
module Pkcs7 {
  import opened Bytes
  import opened Wrappers

  /** The number of octets added, each of which holds that number. */
  function PadLength(n: nat, length: nat): (p: nat)
    requires IsBlockSize(n)
    ensures 1 <= p <= n
  {
    n - length % n
  }

  lemma PadLengthFills(n: nat, length: nat)
    requires IsBlockSize(n)
    ensures length + PadLength(n, length) == (length / n + 1) * n
    ensures (length + PadLength(n, length)) % n == 0
  {
    if n == 8 {
    } else {
    }
  }

  function Pad(n: nat, data: seq<byte>): (r: seq<byte>)
    requires IsBlockSize(n)
    ensures Aligned(n, r)
    ensures |r| == (|data| / n + 1) * n
  {
    var p := PadLength(n, |data|);
    PadLengthFills(n, |data|);
    data + seq(p, _ => p as byte)
  }

  function Unpad(n: nat, s: seq<byte>): (r: Option<seq<byte>>)
    requires IsBlockSize(n)
    ensures r.Some? ==> r.value <= s && |r.value| < |s|
  {
    if s == [] || !Aligned(n, s) then None
    else
      var last := s[|s| - 1];
      var p := last as int;
      if p == 0 || p > n || exists i | |s| - p <= i < |s| :: s[i] != last then None
      else Some(s[..|s| - p])
  }

  lemma UnpadOfPad(n: nat, data: seq<byte>)
    requires IsBlockSize(n)
    ensures Unpad(n, Pad(n, data)) == Some(data)
  {
    assert Pad(n, data)[..|data|] == data;
  }

  lemma PadLengthOfRest(n: nat, length: nat, p: nat)
    requires IsBlockSize(n) && length % n == 0 && 1 <= p <= n && p <= length
    ensures PadLength(n, length - p) == p
  {
    if n == 8 {
    } else {
    }
  }

  lemma PadOfUnpad(n: nat, s: seq<byte>)
    requires IsBlockSize(n)
    requires Unpad(n, s).Some?
    ensures s == Pad(n, Unpad(n, s).value)
  {
    var data := Unpad(n, s).value;
    var p := s[|s| - 1] as int;
    PadLengthOfRest(n, |s|, p);
    assert s[|data|..] == seq(p, _ => p as byte);
    assert s == data + s[|data|..];
  }

  /** Unpadding accepts exactly the padded strings, and takes the padding off. */
  lemma UnpadIffPad(n: nat, s: seq<byte>, data: seq<byte>)
    requires IsBlockSize(n)
    ensures Unpad(n, s) == Some(data) <==> s == Pad(n, data)
  {
    UnpadOfPad(n, data);
    if Unpad(n, s) == Some(data) {
      PadOfUnpad(n, s);
    }
  }
}
