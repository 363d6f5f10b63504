/** The conversion between LF and CR LF line ends that the `convert-crlf` option switches on. */
module Crlf {
  import opened Bytes
  import Utf8

  const CR: byte := 0x0D
  const LF: byte := 0x0A

  function Encode(data: seq<byte>): seq<byte> {
    if data == [] then []
    else (if data[0] == LF then [CR, LF] else [data[0]]) + Encode(data[1..])
  }

  function Decode(data: seq<byte>): seq<byte> {
    if data == [] then []
    else if |data| >= 2 && data[0] == CR && data[1] == LF then [LF] + Decode(data[2..])
    else [data[0]] + Decode(data[1..])
  }

  lemma {:induction false} EncodeConcat(a: seq<byte>, b: seq<byte>)
    ensures Encode(a + b) == Encode(a) + Encode(b)
  {
    if a == [] {
      assert a + b == b;
    } else {
      assert (a + b)[1..] == a[1..] + b;
      EncodeConcat(a[1..], b);
    }
  }

  method EncodeLoop(data: seq<byte>) returns (output: seq<byte>)
    ensures output == Encode(data)
  {
    output := [];
    for i := 0 to |data|
      invariant output == Encode(data[..i])
    {
      assert data[..i + 1] == data[..i] + [data[i]];
      EncodeConcat(data[..i], [data[i]]);
      if data[i] == LF {
        output := output + [CR];
      }
      output := output + [data[i]];
    }
    assert data[..|data|] == data;
  }

  /** What one turn of the decoding loop emits, and where it continues. */
  lemma DecodeOneStep(data: seq<byte>, index: nat)
    requires index < |data|
    ensures Decode(data[index..])
         == if data[index] == CR && index + 1 < |data| && data[index + 1] == LF
            then [data[index + 1]] + Decode(data[index + 2..])
            else [data[index]] + Decode(data[index + 1..])
  {
    var rest := data[index..];
    assert rest[1..] == data[index + 1..];
    assert |rest| >= 2 ==> rest[2..] == data[index + 2..];
  }

  method DecodeLoop(data: seq<byte>) returns (output: seq<byte>)
    ensures output == Decode(data)
  {
    output := [];
    var index := 0;
    while index < |data|
      invariant 0 <= index <= |data|
      invariant Decode(data) == output + Decode(data[index..])
    {
      hide Decode;
      DecodeOneStep(data, index);
      ghost var before := output;
      if data[index] == CR && index + 1 < |data| && data[index + 1] == LF {
        index := index + 1;
      }
      output := output + [data[index]];
      index := index + 1;
      assert output + Decode(data[index..]) == before + ([data[index - 1]] + Decode(data[index..]));
    }
  }

  // ---------- What each conversion does to its parts ----------

  /** Encoding works octet by octet: a line feed gets a carriage return in front, every other octet stays. */
  lemma EncodeParts(a: seq<byte>, b: byte)
    ensures Encode([]) == []
    ensures Encode(a + [b]) == Encode(a) + if b == 10 then [13, 10] else [b]
  {
    EncodeConcat(a, [b]);
    assert Encode([b]) == (if b == 10 then [13, 10] else [b]) + Encode([]);
  }

  function FrontLength(data: seq<byte>): (n: nat)
    requires data != []
    ensures 1 <= n <= |data|
  {
    if |data| >= 2 && data[0] == CR && data[1] == LF then 2 else 1
  }

  lemma DecodeFront(data: seq<byte>)
    requires data != []
    ensures var n := FrontLength(data); Decode(data) == [data[n - 1]] + Decode(data[n..])
  {
  }

  /** Between a and b, a carriage return is cut off its line feed. */
  predicate CutsPair(a: seq<byte>, b: seq<byte>) {
    a != [] && a[|a| - 1] == 13 && b != [] && b[0] == 10
  }

  lemma FrontOfFirst(a: seq<byte>, b: seq<byte>)
    requires a != [] && !CutsPair(a, b)
    ensures var n := FrontLength(a);
      && FrontLength(a + b) == n && (a + b)[n - 1] == a[n - 1] && (a + b)[n..] == a[n..] + b
      && !CutsPair(a[n..], b)
  {
  }

  /** Decoding works part by part, as long as no carriage return is cut off its line feed. */
  lemma {:induction false} DecodeParts(a: seq<byte>, b: seq<byte>)
    requires !CutsPair(a, b)
    ensures Decode(a + b) == Decode(a) + Decode(b)
  {
    if a == [] {
      assert Decode(a) == [];
      assert a + b == b;
    } else {
      hide Decode, FrontLength, CutsPair;
      var n := FrontLength(a);
      DecodeFront(a);
      DecodeFront(a + b);
      FrontOfFirst(a, b);
      DecodeParts(a[n..], b);
    }
  }

  /** It drops the carriage return in front of a line feed, and nothing else. */
  lemma DecodePart(octet: byte)
    ensures Decode([]) == [] && Decode([octet]) == [octet]
    ensures Decode([13, 10]) == [10]
  {
    DecodeOneStep([octet], 0);
    DecodeOneStep([13, 10], 0);
    assert [octet][0..] == [octet] && [octet][1..] == [];
    assert [13 as byte, 10][0..] == [13, 10] && [13 as byte, 10][2..] == [];
  }

  // ---------- Decoding undoes encoding, and exactly when the converse holds ----------

  lemma {:induction false} DecodeEncode(data: seq<byte>)
    ensures Decode(Encode(data)) == data
  {
    if data != [] {
      var e, rest := Encode(data), Encode(data[1..]);
      DecodeEncode(data[1..]);
      if data[0] == LF {
        assert e[2..] == rest;
      } else {
        assert e[1..] == rest;
        assert rest != [] ==> rest[0] != LF;
      }
    }
  }

  /** Every LF directly follows a CR. */
  ghost predicate EveryLfFollowsCr(data: seq<byte>) {
    forall i | 0 <= i < |data| && data[i] == LF :: i > 0 && data[i - 1] == CR
  }

  /** A front that neither holds a bare LF nor ends in a CR before an LF changes nothing. */
  lemma FollowsAfterFront(front: seq<byte>, rest: seq<byte>)
    requires front != [] && EveryLfFollowsCr(front)
    requires !(front[|front| - 1] == CR && rest != [] && rest[0] == LF)
    ensures EveryLfFollowsCr(front + rest) <==> EveryLfFollowsCr(rest)
  {
    var data, n := front + rest, |front|;
    if EveryLfFollowsCr(data) {
      forall i | 0 <= i < |rest| && rest[i] == LF
        ensures i > 0 && rest[i - 1] == CR
      {
        assert data[i + n] == LF && data[i + n - 1] == CR;
      }
    }
    if EveryLfFollowsCr(rest) {
      forall i | 0 <= i < |data| && data[i] == LF
        ensures i > 0 && data[i - 1] == CR
      {
        if i < n {
          assert front[i] == LF && front[i - 1] == CR;
        } else {
          assert rest[i - n] == LF && rest[i - n - 1] == CR;
        }
      }
    }
  }

  /** Encoding gives back what was decoded exactly when every LF directly follows a CR. */
  lemma {:induction false} EncodeDecodeIff(data: seq<byte>)
    ensures Encode(Decode(data)) == data <==> EveryLfFollowsCr(data)
    decreases |data|
  {
    if data == [] {
    } else if |data| >= 2 && data[0] == CR && data[1] == LF {
      var rest := data[2..];
      EncodeDecodeIff(rest);
      FollowsAfterFront([CR, LF], rest);
      hide EveryLfFollowsCr;
      assert data == [CR, LF] + rest;
      assert Encode(Decode(data)) == [CR, LF] + Encode(Decode(rest));
      assert Encode(Decode(data))[2..] == Encode(Decode(rest));
    } else {
      var rest := data[1..];
      assert data == [data[0]] + rest;
      assert Decode(data)[1..] == Decode(rest);
      if data[0] == LF {
        assert Encode(Decode(data))[0] == CR;
      } else {
        EncodeDecodeIff(rest);
        FollowsAfterFront([data[0]], rest);
        hide EveryLfFollowsCr;
        assert Encode(Decode(data)) == [data[0]] + Encode(Decode(rest));
        assert Encode(Decode(data))[1..] == Encode(Decode(rest));
      }
    }
  }

  /** Of all strings that decode to the same text, the encoded text is the longest, and no other is as long. */
  lemma {:induction false} EncodeIsLongest(data: seq<byte>)
    ensures |data| <= |Encode(Decode(data))|
    ensures |data| == |Encode(Decode(data))| ==> data == Encode(Decode(data))
    decreases |data|
  {
    if data == [] {
    } else if |data| >= 2 && data[0] == CR && data[1] == LF {
      EncodeIsLongest(data[2..]);
      assert Decode(data)[1..] == Decode(data[2..]);
      assert data == [CR, LF] + data[2..];
    } else {
      EncodeIsLongest(data[1..]);
      assert Decode(data)[1..] == Decode(data[1..]);
      assert data == [data[0]] + data[1..];
    }
  }

  /** Encoding changes nothing exactly when there is no LF. */
  lemma {:induction false} EncodeIsIdentityIff(data: seq<byte>)
    ensures |data| <= |Encode(data)|
    ensures Encode(data) == data <==> LF !in data
  {
    if data != [] {
      EncodeIsIdentityIff(data[1..]);
      assert data == [data[0]] + data[1..];
      if data[0] != LF {
        assert Encode(data)[1..] == Encode(data[1..]);
      }
    }
  }

  ghost predicate HasCrLf(data: seq<byte>) {
    exists i :: 0 <= i < |data| - 1 && data[i] == CR && data[i + 1] == LF
  }

  /** Decoding changes nothing exactly when there is no CR LF pair. */
  lemma {:induction false} DecodeIsIdentityIff(data: seq<byte>)
    ensures |Decode(data)| <= |data|
    ensures Decode(data) == data <==> !HasCrLf(data)
    decreases |data|
  {
    if data == [] {
    } else if |data| >= 2 && data[0] == CR && data[1] == LF {
      DecodeIsIdentityIff(data[2..]);
    } else {
      var rest := data[1..];
      DecodeIsIdentityIff(rest);
      assert data == [data[0]] + rest;
      assert Decode(data)[1..] == Decode(rest);
      assert HasCrLf(rest) ==> HasCrLf(data) by {
        if HasCrLf(rest) {
          var i :| 0 <= i < |rest| - 1 && rest[i] == CR && rest[i + 1] == LF;
          assert data[i + 1] == CR && data[i + 2] == LF;
        }
      }
      assert HasCrLf(data) ==> HasCrLf(rest) by {
        if HasCrLf(data) {
          var i :| 0 <= i < |data| - 1 && data[i] == CR && data[i + 1] == LF;
          assert rest[i - 1] == CR && rest[i - 1 + 1] == LF;
        }
      }
    }
  }

  // ---------- What the conversion preserves and reflects ----------

  lemma {:induction false} EncodeKeepsUtf8After(prefix: seq<byte>, data: seq<byte>)
    ensures Utf8.Valid(prefix + Encode(data)) <==> Utf8.Valid(prefix + data)
    decreases |data|
  {
    hide Utf8.Valid;
    if data != [] {
      var rest := data[1..];
      var step := if data[0] == LF then [CR, LF] else [data[0]];
      assert Encode(data) == step + Encode(rest);
      hide Encode;
      assert prefix + (step + Encode(rest)) == prefix + step + Encode(rest);
      EncodeKeepsUtf8After(prefix + step, rest);
      assert prefix + data == prefix + [data[0]] + rest;
      if data[0] == LF {
        CrLfLikeLf(prefix, rest);
      }
    }
  }

  lemma {:induction false} DecodeKeepsUtf8After(prefix: seq<byte>, data: seq<byte>)
    ensures Utf8.Valid(prefix + Decode(data)) <==> Utf8.Valid(prefix + data)
    decreases |data|
  {
    hide Utf8.Valid;
    if data == [] {
    } else if |data| >= 2 && data[0] == CR && data[1] == LF {
      var rest := data[2..];
      assert Decode(data) == [LF] + Decode(rest);
      hide Decode;
      assert prefix + ([LF] + Decode(rest)) == prefix + [LF] + Decode(rest);
      DecodeKeepsUtf8After(prefix + [LF], rest);
      assert prefix + data == prefix + [CR, LF] + rest;
      CrLfLikeLf(prefix, rest);
    } else {
      var rest := data[1..];
      assert Decode(data) == [data[0]] + Decode(rest);
      hide Decode;
      assert prefix + ([data[0]] + Decode(rest)) == prefix + [data[0]] + Decode(rest);
      DecodeKeepsUtf8After(prefix + [data[0]], rest);
      assert prefix + data == prefix + [data[0]] + rest;
    }
  }

  lemma CrLfLikeLf(prefix: seq<byte>, rest: seq<byte>)
    ensures Utf8.Valid(prefix + [CR, LF] + rest) <==> Utf8.Valid(prefix + [LF] + rest)
  {
    assert prefix + [CR, LF] + rest == prefix + [CR] + ([LF] + rest);
    Utf8.ValidAroundAscii(prefix, CR, [LF] + rest);
    assert [LF] + rest == [] + [LF] + rest;
    Utf8.ValidAroundAscii([], LF, rest);
    Utf8.ValidAroundAscii(prefix, LF, rest);
  }

  /** Neither direction makes or breaks well-formed UTF-8. */
  lemma Utf8Kept(data: seq<byte>)
    ensures Utf8.Valid(Encode(data)) <==> Utf8.Valid(data)
    ensures Utf8.Valid(Decode(data)) <==> Utf8.Valid(data)
  {
    EncodeKeepsUtf8After([], data);
    DecodeKeepsUtf8After([], data);
    assert [] + data == data && [] + Encode(data) == Encode(data) && [] + Decode(data) == Decode(data);
  }

  /** Both directions keep every octet value but CR, and bring none in; they keep NUL-freeness in particular. */
  lemma {:induction false} OtherOctetsKept(data: seq<byte>, b: byte)
    requires b != CR
    ensures b in Encode(data) <==> b in data
    ensures b in Decode(data) <==> b in data
    decreases |data|
  {
    if data != [] {
      OtherOctetsKept(data[1..], b);
      assert data == [data[0]] + data[1..];
      if |data| >= 2 && data[0] == CR && data[1] == LF {
        OtherOctetsKept(data[2..], b);
        assert data == [CR, LF] + data[2..];
      }
    }
  }
}
