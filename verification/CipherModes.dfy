/**
  The modes of operation of NIST SP 800-38A that the raw cipher layer selects: ECB (section 6.1),
  CBC (section 6.2) and full-block CFB (section 6.3), over an arbitrary keyed block cipher.
 */
module CipherModes {
  import opened Bytes

  /** A block cipher under one fixed key. */
  datatype BlockCipher = BlockCipher(size: nat, enc: seq<byte> -> seq<byte>, dec: seq<byte> -> seq<byte>) {

    /** The forward cipher maps blocks to blocks; CFB asks for nothing more. */
    ghost predicate Forward() {
      && IsBlockSize(size)
      && forall x | |x| == size :: |enc(x)| == size
    }

    /** A permutation of the blocks, with `dec` its inverse. */
    ghost predicate Valid() {
      && Forward()
      && (forall x | |x| == size :: |dec(x)| == size)
      && (forall x {:trigger enc(x)} | |x| == size :: dec(enc(x)) == x)
      && (forall x {:trigger dec(x)} | |x| == size :: enc(dec(x)) == x)
    }
  }

  // ---------- Electronic codebook ----------

  function EcbEncrypt(c: BlockCipher, data: seq<byte>): (r: seq<byte>)
    requires c.Valid() && Aligned(c.size, data)
    ensures |r| == |data|
  {
    if data == [] then []
    else c.enc(data[..c.size]) + EcbEncrypt(c, data[c.size..])
  }

  function EcbDecrypt(c: BlockCipher, data: seq<byte>): (r: seq<byte>)
    requires c.Valid() && Aligned(c.size, data)
    ensures |r| == |data|
  {
    if data == [] then []
    else c.dec(data[..c.size]) + EcbDecrypt(c, data[c.size..])
  }

  lemma {:induction false} EcbInverse(c: BlockCipher, data: seq<byte>)
    requires c.Valid() && Aligned(c.size, data)
    ensures EcbDecrypt(c, EcbEncrypt(c, data)) == data
    ensures EcbEncrypt(c, EcbDecrypt(c, data)) == data
  {
    if data != [] {
      var head, tail := data[..c.size], data[c.size..];
      EcbInverse(c, tail);
      var e, d := EcbEncrypt(c, data), EcbDecrypt(c, data);
      assert e[..c.size] == c.enc(head) && e[c.size..] == EcbEncrypt(c, tail);
      assert d[..c.size] == c.dec(head) && d[c.size..] == EcbDecrypt(c, tail);
      assert data == head + tail;
    }
  }

  /** Every ciphertext block is decrypted by itself. */
  lemma {:induction false} EcbDecryptBlocks(c: BlockCipher, data: seq<byte>)
    requires c.Valid() && Aligned(c.size, data)
    ensures var p, q := Blocks(c.size, EcbDecrypt(c, data)), Blocks(c.size, data);
      |p| == |q| && forall i | 0 <= i < |q| :: p[i] == c.dec(q[i])
  {
    if data != [] {
      var tail := data[c.size..];
      EcbDecryptBlocks(c, tail);
      HeadAndTailBlocks(c.size, c.dec(data[..c.size]), EcbDecrypt(c, tail));
      HeadAndTailBlocks(c.size, data[..c.size], tail);
      assert data == data[..c.size] + tail;
    }
  }

  lemma HeadAndTailBlocks(n: nat, head: seq<byte>, tail: seq<byte>)
    requires IsBlockSize(n) && |head| == n
    ensures Blocks(n, head + tail) == [head] + Blocks(n, tail)
  {
    if tail == [] {
      assert head + tail == head;
    } else {
      assert (head + tail)[..n] == head && (head + tail)[n..] == tail;
    }
  }

  // ---------- Cipher block chaining ----------

  function CbcEncrypt(c: BlockCipher, iv: seq<byte>, data: seq<byte>): (r: seq<byte>)
    requires c.Valid() && |iv| == c.size && Aligned(c.size, data)
    ensures |r| == |data|
    decreases |data|
  {
    if data == [] then []
    else
      var block := c.enc(Xor(data[..c.size], iv));
      block + CbcEncrypt(c, block, data[c.size..])
  }

  function CbcDecrypt(c: BlockCipher, iv: seq<byte>, data: seq<byte>): (r: seq<byte>)
    requires c.Valid() && |iv| == c.size && Aligned(c.size, data)
    ensures |r| == |data|
    decreases |data|
  {
    if data == [] then []
    else Xor(c.dec(data[..c.size]), iv) + CbcDecrypt(c, data[..c.size], data[c.size..])
  }

  lemma {:induction false} CbcDecryptUndoesEncrypt(c: BlockCipher, iv: seq<byte>, data: seq<byte>)
    requires c.Valid() && |iv| == c.size && Aligned(c.size, data)
    ensures CbcDecrypt(c, iv, CbcEncrypt(c, iv, data)) == data
    decreases |data|
  {
    if data != [] {
      var head, tail := data[..c.size], data[c.size..];
      var block := c.enc(Xor(head, iv));
      var e := CbcEncrypt(c, iv, data);
      assert e[..c.size] == block && e[c.size..] == CbcEncrypt(c, block, tail);
      XorCancels(head, iv);
      CbcDecryptUndoesEncrypt(c, block, tail);
      assert data == head + tail;
    }
  }

  lemma {:induction false} CbcEncryptUndoesDecrypt(c: BlockCipher, iv: seq<byte>, data: seq<byte>)
    requires c.Valid() && |iv| == c.size && Aligned(c.size, data)
    ensures CbcEncrypt(c, iv, CbcDecrypt(c, iv, data)) == data
    decreases |data|
  {
    if data != [] {
      var head, tail := data[..c.size], data[c.size..];
      var d := CbcDecrypt(c, iv, data);
      assert d[..c.size] == Xor(c.dec(head), iv) && d[c.size..] == CbcDecrypt(c, head, tail);
      XorCancels(c.dec(head), iv);
      CbcEncryptUndoesDecrypt(c, head, tail);
      assert data == head + tail;
    }
  }

  /** What block i of a ciphertext is chained to: the previous ciphertext block, or the IV. */
  function Chain(iv: seq<byte>, blocks: seq<seq<byte>>, i: nat): seq<byte>
    requires i < |blocks|
  {
    if i == 0 then iv else blocks[i - 1]
  }

  lemma {:induction false} CbcDecryptBlocks(c: BlockCipher, iv: seq<byte>, data: seq<byte>)
    requires c.Valid() && |iv| == c.size && Aligned(c.size, data)
    ensures var p, q := Blocks(c.size, CbcDecrypt(c, iv, data)), Blocks(c.size, data);
      |p| == |q| && forall i | 0 <= i < |q| :: p[i] == Xor(c.dec(q[i]), Chain(iv, q, i))
    decreases |data|
  {
    if data != [] {
      var head, tail := data[..c.size], data[c.size..];
      CbcDecryptBlocks(c, head, tail);
      HeadAndTailBlocks(c.size, Xor(c.dec(head), iv), CbcDecrypt(c, head, tail));
      HeadAndTailBlocks(c.size, head, tail);
      assert data == head + tail;
      var p, q := Blocks(c.size, CbcDecrypt(c, iv, data)), Blocks(c.size, data);
      hide CbcDecrypt, Blocks, Xor, Chain;
      ChainShifts(iv, head, q[1..]);
      forall i | 0 <= i < |q|
        ensures p[i] == Xor(c.dec(q[i]), Chain(iv, q, i))
      {
        if i > 0 {
          assert p[i] == p[1..][i - 1] && q[i] == q[1..][i - 1];
        }
      }
    }
  }

  lemma ChainShifts(iv: seq<byte>, head: seq<byte>, tail: seq<seq<byte>>)
    ensures Chain(iv, [head] + tail, 0) == iv
    ensures forall i | 1 <= i <= |tail| :: Chain(iv, [head] + tail, i) == Chain(head, tail, i - 1)
  {
  }

  // ---------- Cipher feedback, segments of one full block ----------

  function CfbEncrypt(c: BlockCipher, iv: seq<byte>, data: seq<byte>): (r: seq<byte>)
    requires c.Forward() && |iv| == c.size
    ensures |r| == |data|
    decreases |data|
  {
    if |data| <= c.size then Xor(data, c.enc(iv)[..|data|])
    else
      var block := Xor(data[..c.size], c.enc(iv));
      block + CfbEncrypt(c, block, data[c.size..])
  }

  function CfbDecrypt(c: BlockCipher, iv: seq<byte>, data: seq<byte>): (r: seq<byte>)
    requires c.Forward() && |iv| == c.size
    ensures |r| == |data|
    decreases |data|
  {
    if |data| <= c.size then Xor(data, c.enc(iv)[..|data|])
    else Xor(data[..c.size], c.enc(iv)) + CfbDecrypt(c, data[..c.size], data[c.size..])
  }

  lemma {:induction false} CfbDecryptUndoesEncrypt(c: BlockCipher, iv: seq<byte>, data: seq<byte>)
    requires c.Forward() && |iv| == c.size
    ensures CfbDecrypt(c, iv, CfbEncrypt(c, iv, data)) == data
    decreases |data|
  {
    if |data| <= c.size {
      XorCancels(data, c.enc(iv)[..|data|]);
    } else {
      var head, tail := data[..c.size], data[c.size..];
      var block := Xor(head, c.enc(iv));
      var e := CfbEncrypt(c, iv, data);
      assert e[..c.size] == block && e[c.size..] == CfbEncrypt(c, block, tail);
      XorCancels(head, c.enc(iv));
      CfbDecryptUndoesEncrypt(c, block, tail);
      assert data == head + tail;
    }
  }

  lemma {:induction false} CfbEncryptUndoesDecrypt(c: BlockCipher, iv: seq<byte>, data: seq<byte>)
    requires c.Forward() && |iv| == c.size
    ensures CfbEncrypt(c, iv, CfbDecrypt(c, iv, data)) == data
    decreases |data|
  {
    if |data| <= c.size {
      XorCancels(data, c.enc(iv)[..|data|]);
    } else {
      var head, tail := data[..c.size], data[c.size..];
      var d := CfbDecrypt(c, iv, data);
      assert d[..c.size] == Xor(head, c.enc(iv)) && d[c.size..] == CfbDecrypt(c, head, tail);
      XorCancels(head, c.enc(iv));
      CfbEncryptUndoesDecrypt(c, head, tail);
      assert data == head + tail;
    }
  }

  lemma {:induction false} CfbDecryptBlocks(c: BlockCipher, iv: seq<byte>, data: seq<byte>)
    requires c.Forward() && |iv| == c.size
    ensures var p, q := Blocks(c.size, CfbDecrypt(c, iv, data)), Blocks(c.size, data);
      |p| == |q| && forall i | 0 <= i < |q| ::
        |Chain(iv, q, i)| == c.size && p[i] == Xor(q[i], c.enc(Chain(iv, q, i))[..|q[i]|])
    decreases |data|
  {
    if |data| > c.size {
      var head, tail := data[..c.size], data[c.size..];
      CfbDecryptBlocks(c, head, tail);
      HeadAndTailBlocks(c.size, Xor(head, c.enc(iv)), CfbDecrypt(c, head, tail));
      HeadAndTailBlocks(c.size, head, tail);
      assert data == head + tail;
      ChainShifts(iv, head, Blocks(c.size, tail));
      assert c.enc(iv)[..c.size] == c.enc(iv);
      hide CfbDecrypt, Blocks, Xor, Chain;
    }
  }

  /** The ciphertext of the blocks from `from` on, when `register` is what the next block is masked with. */
  ghost function CfbEncryptRest(c: BlockCipher, register: seq<byte>, rest: seq<byte>): (r: seq<byte>)
    requires c.Forward()
    requires rest != [] ==> |register| == c.size
    ensures |r| == |rest|
  {
    if rest == [] then [] else CfbEncrypt(c, register, rest)
  }

  ghost function CfbDecryptRest(c: BlockCipher, register: seq<byte>, rest: seq<byte>): (r: seq<byte>)
    requires c.Forward()
    requires rest != [] ==> |register| == c.size
    ensures |r| == |rest|
  {
    if rest == [] then [] else CfbDecrypt(c, register, rest)
  }

  function Masked(s: seq<byte>, from: nat, mask: seq<byte>): (r: seq<byte>)
    requires from + |mask| <= |s|
    ensures |r| == |s|
  {
    s[..from] + Xor(s[from..from + |mask|], mask) + s[from + |mask|..]
  }

  method MaskInPlace(buffer: array<byte>, from: nat, mask: seq<byte>)
    requires from + |mask| <= buffer.Length
    modifies buffer
    ensures buffer[..] == Masked(old(buffer[..]), from, mask)
  {
    for j := 0 to |mask|
      invariant buffer[..from] == old(buffer[..from])
      invariant forall k | 0 <= k < j :: buffer[from + k] == ByteXor(old(buffer[from + k]), mask[k])
      invariant buffer[from + j..] == old(buffer[from + j..])
    {
      buffer[from + j] := ByteXor(buffer[from + j], mask[j]);
    }
  }

  /** The first i octets of `current` are done, and `register` masks what follows. */
  ghost predicate EncryptedUpTo(c: BlockCipher, iv: seq<byte>, plain: seq<byte>,
                                current: seq<byte>, i: nat, register: seq<byte>)
    requires c.Forward() && |iv| == c.size
  {
    && i <= |plain| == |current|
    && (i < |plain| ==> |register| == c.size)
    && current[i..] == plain[i..]
    && CfbEncrypt(c, iv, plain) == current[..i] + CfbEncryptRest(c, register, plain[i..])
  }

  ghost predicate DecryptedUpTo(c: BlockCipher, iv: seq<byte>, cipher: seq<byte>,
                                current: seq<byte>, i: nat, register: seq<byte>)
    requires c.Forward() && |iv| == c.size
  {
    && i <= |cipher| == |current|
    && (i < |cipher| ==> |register| == c.size)
    && current[i..] == cipher[i..]
    && CfbDecrypt(c, iv, cipher) == current[..i] + CfbDecryptRest(c, register, cipher[i..])
  }

  /** One turn: `count` octets are masked, and they become the next register. */
  lemma CfbEncryptStep(c: BlockCipher, register: seq<byte>, rest: seq<byte>, count: nat)
    requires c.Forward() && |register| == c.size
    requires rest != [] && count == if |rest| < c.size then |rest| else c.size
    ensures var next := Xor(rest[..count], c.enc(register)[..count]);
      CfbEncryptRest(c, register, rest) == next + CfbEncryptRest(c, next, rest[count..])
  {
    if |rest| <= c.size {
      assert rest[..count] == rest;
    } else {
      assert c.enc(register)[..count] == c.enc(register);
    }
  }

  /** One turn: `count` octets are masked, and what they were becomes the next register. */
  lemma CfbDecryptStep(c: BlockCipher, register: seq<byte>, rest: seq<byte>, count: nat)
    requires c.Forward() && |register| == c.size
    requires rest != [] && count == if |rest| < c.size then |rest| else c.size
    ensures CfbDecryptRest(c, register, rest)
         == Xor(rest[..count], c.enc(register)[..count]) + CfbDecryptRest(c, rest[..count], rest[count..])
  {
    if |rest| <= c.size {
      assert rest[..count] == rest;
    } else {
      assert c.enc(register)[..count] == c.enc(register);
    }
  }

  /** Moving the border between the finished and the pending part of a buffer. */
  lemma Splice(before: seq<byte>, source: seq<byte>, i: nat, mask: seq<byte>)
    requires i + |mask| <= |before| == |source|
    requires before[i..] == source[i..]
    ensures var after, out := Masked(before, i, mask), Xor(source[i..][..|mask|], mask);
      && after[..i + |mask|] == before[..i] + out
      && after[i + |mask|..] == source[i + |mask|..] == source[i..][|mask|..]
      && before[i..i + |mask|] == source[i..][..|mask|]
      && after[i..i + |mask|] == out
  {
    assert source[i + |mask|..] == source[i..][|mask|..];
    assert before[i + |mask|..] == before[i..][|mask|..];
    assert before[i..i + |mask|] == before[i..][..|mask|];
  }

  lemma CfbEncryptTurn(c: BlockCipher, iv: seq<byte>, plain: seq<byte>,
                       current: seq<byte>, i: nat, register: seq<byte>, count: nat)
    requires c.Forward() && |iv| == c.size
    requires EncryptedUpTo(c, iv, plain, current, i, register)
    requires i < |plain| && count == if |plain| - i < c.size then |plain| - i else c.size
    ensures var after := Masked(current, i, c.enc(register)[..count]);
      EncryptedUpTo(c, iv, plain, after, i + count, after[i..i + count])
  {
    hide CfbEncrypt, CfbEncryptRest, Masked, Xor;
    Splice(current, plain, i, c.enc(register)[..count]);
    CfbEncryptStep(c, register, plain[i..], count);
  }

  lemma CfbDecryptTurn(c: BlockCipher, iv: seq<byte>, cipher: seq<byte>,
                       current: seq<byte>, i: nat, register: seq<byte>, count: nat)
    requires c.Forward() && |iv| == c.size
    requires DecryptedUpTo(c, iv, cipher, current, i, register)
    requires i < |cipher| && count == if |cipher| - i < c.size then |cipher| - i else c.size
    ensures DecryptedUpTo(c, iv, cipher, Masked(current, i, c.enc(register)[..count]),
                          i + count, current[i..i + count])
  {
    hide CfbDecrypt, CfbDecryptRest, Masked, Xor;
    Splice(current, cipher, i, c.enc(register)[..count]);
    CfbDecryptStep(c, register, cipher[i..], count);
  }

  method CfbEncryptInPlace(c: BlockCipher, iv: seq<byte>, buffer: array<byte>)
    requires c.Forward() && |iv| == c.size
    modifies buffer
    ensures buffer[..] == CfbEncrypt(c, iv, old(buffer[..]))
  {
    ghost var plain := buffer[..];
    var register := iv;
    var i := 0;
    while i < buffer.Length
      invariant 0 <= i <= buffer.Length
      invariant EncryptedUpTo(c, iv, plain, buffer[..], i, register)
    {
      var count := if buffer.Length - i < c.size then buffer.Length - i else c.size;
      CfbEncryptTurn(c, iv, plain, buffer[..], i, register, count);
      MaskInPlace(buffer, i, c.enc(register)[..count]);
      assert buffer[i..i + count] == buffer[..][i..i + count];
      register := buffer[i..i + count];
      i := i + count;
    }
  }

  method CfbDecryptInPlace(c: BlockCipher, iv: seq<byte>, buffer: array<byte>)
    requires c.Forward() && |iv| == c.size
    modifies buffer
    ensures buffer[..] == CfbDecrypt(c, iv, old(buffer[..]))
  {
    ghost var cipher := buffer[..];
    var register := iv;
    var i := 0;
    while i < buffer.Length
      invariant 0 <= i <= buffer.Length
      invariant DecryptedUpTo(c, iv, cipher, buffer[..], i, register)
    {
      var count := if buffer.Length - i < c.size then buffer.Length - i else c.size;
      CfbDecryptTurn(c, iv, cipher, buffer[..], i, register, count);
      var next := buffer[i..i + count];
      assert next == buffer[..][i..i + count];
      MaskInPlace(buffer, i, c.enc(register)[..count]);
      register := next;
      i := i + count;
    }
  }

  // ---------- Whole blocks in place ----------

  function Replaced(s: seq<byte>, from: nat, block: seq<byte>): (r: seq<byte>)
    requires from + |block| <= |s|
    ensures |r| == |s|
  {
    s[..from] + block + s[from + |block|..]
  }

  method WriteBlock(buffer: array<byte>, from: nat, block: seq<byte>)
    requires from + |block| <= buffer.Length
    modifies buffer
    ensures buffer[..] == Replaced(old(buffer[..]), from, block)
  {
    for j := 0 to |block|
      invariant buffer[..from] == old(buffer[..from])
      invariant forall k | 0 <= k < j :: buffer[from + k] == block[k]
      invariant buffer[from + j..] == old(buffer[from + j..])
    {
      buffer[from + j] := block[j];
    }
  }

  /** From i on, which is the beginning of a block, `current` still is what `source` was. */
  ghost predicate Pending(n: nat, source: seq<byte>, current: seq<byte>, i: nat)
    requires IsBlockSize(n)
  {
    && i <= |source| == |current|
    && (|source| - i) % n == 0
    && current[i..] == source[i..]
  }

  /** Writing one block moves the border by one block. */
  lemma BlockWritten(n: nat, source: seq<byte>, current: seq<byte>, i: nat, out: seq<byte>)
    requires IsBlockSize(n) && |out| == n
    requires Pending(n, source, current, i) && i < |source|
    ensures i + n <= |source|
    ensures current[i..i + n] == source[i..][..n]
    ensures source[i..][n..] == source[i + n..]
    ensures var after := Replaced(current, i, out);
      Pending(n, source, after, i + n) && after[..i + n] == current[..i] + out
  {
    assert i + n <= |source| by {
      assert |source| - i >= n;
    }
    assert current[i..i + n] == current[i..][..n];
    assert current[i + n..] == current[i..][n..];
    assert source[i..][n..] == source[i + n..];
  }

  lemma StillPending(n: nat, source: seq<byte>, current: seq<byte>, i: nat)
    requires IsBlockSize(n) && Pending(n, source, current, i) && i < |source|
    ensures i + n <= |source| && current[i..i + n] == source[i..][..n]
  {
    assert current[i..i + n] == current[i..][..n];
  }

  ghost predicate CbcEncryptedUpTo(c: BlockCipher, iv: seq<byte>, plain: seq<byte>,
                                   current: seq<byte>, i: nat, register: seq<byte>)
    requires c.Valid() && |iv| == c.size
  {
    && |register| == c.size && Aligned(c.size, plain) && Pending(c.size, plain, current, i)
    && CbcEncrypt(c, iv, plain) == current[..i] + CbcEncrypt(c, register, plain[i..])
  }

  ghost predicate CbcDecryptedUpTo(c: BlockCipher, iv: seq<byte>, text: seq<byte>,
                                   current: seq<byte>, i: nat, register: seq<byte>)
    requires c.Valid() && |iv| == c.size
  {
    && |register| == c.size && Aligned(c.size, text) && Pending(c.size, text, current, i)
    && CbcDecrypt(c, iv, text) == current[..i] + CbcDecrypt(c, register, text[i..])
  }

  ghost predicate EcbEncryptedUpTo(c: BlockCipher, plain: seq<byte>, current: seq<byte>, i: nat)
    requires c.Valid()
  {
    && Aligned(c.size, plain) && Pending(c.size, plain, current, i)
    && EcbEncrypt(c, plain) == current[..i] + EcbEncrypt(c, plain[i..])
  }

  ghost predicate EcbDecryptedUpTo(c: BlockCipher, text: seq<byte>, current: seq<byte>, i: nat)
    requires c.Valid()
  {
    && Aligned(c.size, text) && Pending(c.size, text, current, i)
    && EcbDecrypt(c, text) == current[..i] + EcbDecrypt(c, text[i..])
  }

  lemma CbcEncryptTurn(c: BlockCipher, iv: seq<byte>, plain: seq<byte>, current: seq<byte>, i: nat, register: seq<byte>)
    requires c.Valid() && |iv| == c.size
    requires CbcEncryptedUpTo(c, iv, plain, current, i, register) && i < |plain|
    ensures i + c.size <= |plain|
    ensures var out := c.enc(Xor(current[i..i + c.size], register));
      CbcEncryptedUpTo(c, iv, plain, Replaced(current, i, out), i + c.size, out)
  {
    StillPending(c.size, plain, current, i);
    var out := c.enc(Xor(current[i..i + c.size], register));
    BlockWritten(c.size, plain, current, i, out);
  }

  lemma CbcDecryptTurn(c: BlockCipher, iv: seq<byte>, text: seq<byte>, current: seq<byte>, i: nat, register: seq<byte>)
    requires c.Valid() && |iv| == c.size
    requires CbcDecryptedUpTo(c, iv, text, current, i, register) && i < |text|
    ensures i + c.size <= |text|
    ensures var out := Xor(c.dec(current[i..i + c.size]), register);
      CbcDecryptedUpTo(c, iv, text, Replaced(current, i, out), i + c.size, current[i..i + c.size])
  {
    StillPending(c.size, text, current, i);
    var out := Xor(c.dec(current[i..i + c.size]), register);
    BlockWritten(c.size, text, current, i, out);
  }

  lemma EcbEncryptTurn(c: BlockCipher, plain: seq<byte>, current: seq<byte>, i: nat)
    requires c.Valid()
    requires EcbEncryptedUpTo(c, plain, current, i) && i < |plain|
    ensures i + c.size <= |plain|
    ensures var out := c.enc(current[i..i + c.size]);
      EcbEncryptedUpTo(c, plain, Replaced(current, i, out), i + c.size)
  {
    StillPending(c.size, plain, current, i);
    var out := c.enc(current[i..i + c.size]);
    BlockWritten(c.size, plain, current, i, out);
  }

  lemma EcbDecryptTurn(c: BlockCipher, text: seq<byte>, current: seq<byte>, i: nat)
    requires c.Valid()
    requires EcbDecryptedUpTo(c, text, current, i) && i < |text|
    ensures i + c.size <= |text|
    ensures var out := c.dec(current[i..i + c.size]);
      EcbDecryptedUpTo(c, text, Replaced(current, i, out), i + c.size)
  {
    StillPending(c.size, text, current, i);
    var out := c.dec(current[i..i + c.size]);
    BlockWritten(c.size, text, current, i, out);
  }

  method CbcEncryptInPlace(c: BlockCipher, iv: seq<byte>, buffer: array<byte>)
    requires c.Valid() && |iv| == c.size && Aligned(c.size, buffer[..])
    modifies buffer
    ensures buffer[..] == CbcEncrypt(c, iv, old(buffer[..]))
  {
    ghost var plain := buffer[..];
    var register, i := iv, 0;
    while i < buffer.Length
      invariant 0 <= i <= buffer.Length
      invariant CbcEncryptedUpTo(c, iv, plain, buffer[..], i, register)
    {
      CbcEncryptTurn(c, iv, plain, buffer[..], i, register);
      var block := buffer[i..i + c.size];
      assert block == buffer[..][i..i + c.size];
      register := c.enc(Xor(block, register));
      WriteBlock(buffer, i, register);
      i := i + c.size;
    }
  }

  /** Each ciphertext block is kept before it is overwritten: the next one is chained to it. */
  method CbcDecryptInPlace(c: BlockCipher, iv: seq<byte>, buffer: array<byte>)
    requires c.Valid() && |iv| == c.size && Aligned(c.size, buffer[..])
    modifies buffer
    ensures buffer[..] == CbcDecrypt(c, iv, old(buffer[..]))
  {
    ghost var text := buffer[..];
    var register, i := iv, 0;
    while i < buffer.Length
      invariant 0 <= i <= buffer.Length
      invariant CbcDecryptedUpTo(c, iv, text, buffer[..], i, register)
    {
      CbcDecryptTurn(c, iv, text, buffer[..], i, register);
      var block := buffer[i..i + c.size];
      assert block == buffer[..][i..i + c.size];
      WriteBlock(buffer, i, Xor(c.dec(block), register));
      register := block;
      i := i + c.size;
    }
  }

  method EcbEncryptInPlace(c: BlockCipher, buffer: array<byte>)
    requires c.Valid() && Aligned(c.size, buffer[..])
    modifies buffer
    ensures buffer[..] == EcbEncrypt(c, old(buffer[..]))
  {
    ghost var plain := buffer[..];
    var i := 0;
    while i < buffer.Length
      invariant 0 <= i <= buffer.Length
      invariant EcbEncryptedUpTo(c, plain, buffer[..], i)
    {
      EcbEncryptTurn(c, plain, buffer[..], i);
      var block := buffer[i..i + c.size];
      assert block == buffer[..][i..i + c.size];
      WriteBlock(buffer, i, c.enc(block));
      i := i + c.size;
    }
  }

  method EcbDecryptInPlace(c: BlockCipher, buffer: array<byte>)
    requires c.Valid() && Aligned(c.size, buffer[..])
    modifies buffer
    ensures buffer[..] == EcbDecrypt(c, old(buffer[..]))
  {
    ghost var text := buffer[..];
    var i := 0;
    while i < buffer.Length
      invariant 0 <= i <= buffer.Length
      invariant EcbDecryptedUpTo(c, text, buffer[..], i)
    {
      EcbDecryptTurn(c, text, buffer[..], i);
      var block := buffer[i..i + c.size];
      assert block == buffer[..][i..i + c.size];
      WriteBlock(buffer, i, c.dec(block));
      i := i + c.size;
    }
  }
}
