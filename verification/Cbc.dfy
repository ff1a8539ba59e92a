/** cbc.c: cipher-block chaining over any block cipher, in place or not, in one call or several. */
module Cbc {

  /** A cipher block, in the 32-bit words that cbc_xor works on. */
  datatype Block = Block(words: seq<bv32>)

  /** A keyed block cipher. */
  datatype Cipher = Cipher(enc: Block -> Block, dec: Block -> Block)

  /** On blocks of n words, decryption undoes encryption. */
  ghost predicate Inverse(c: Cipher, n: nat) {
    forall b: Block {:trigger Undone(c, b)} :: |b.words| == n ==> Undone(c, b)
  }

  ghost predicate Undone(c: Cipher, b: Block) {
    |c.enc(b).words| == |c.dec(b).words| == |b.words| && c.dec(c.enc(b)) == b
  }

  ghost predicate Blocks(xs: seq<Block>, n: nat) {
    forall k :: 0 <= k < |xs| ==> |xs[k].words| == n
  }

  function XorWord(x: bv32, y: bv32): bv32 {
    x ^ y
  }

  lemma XorWordLaws(x: bv32, y: bv32)
    ensures XorWord(XorWord(x, y), y) == x && XorWord(x, y) == XorWord(y, x)
  {
  }

  function XorBlock(a: Block, b: Block): (r: Block)
    requires |a.words| == |b.words|
    ensures |r.words| == |a.words|
    ensures forall i :: 0 <= i < |a.words| ==> r.words[i] == XorWord(a.words[i], b.words[i])
  {
    Block(seq(|a.words|, i requires 0 <= i < |a.words| => XorWord(a.words[i], b.words[i])))
  }

  lemma XorBlockTwice(a: Block, b: Block)
    requires |a.words| == |b.words|
    ensures XorBlock(XorBlock(a, b), a) == b
  {
    hide XorWord;
    forall i | 0 <= i < |a.words|
      ensures XorBlock(XorBlock(a, b), a).words[i] == b.words[i]
    {
      XorWordLaws(a.words[i], b.words[i]);
      XorWordLaws(b.words[i], a.words[i]);
    }
    assert XorBlock(XorBlock(a, b), a).words == b.words;
  }

  //////////////////////////////////////////////////////////////////////////////
  // Chaining
  //////////////////////////////////////////////////////////////////////////////

  /** The chaining value after a sequence of cipher blocks. */
  function Last(iv: Block, ys: seq<Block>): Block {
    if ys == [] then iv else ys[|ys| - 1]
  }

  /** Section 6.2 of NIST SP 800-38A: each block is combined with the previous cipher block. */
  ghost function Encrypted(c: Cipher, n: nat, iv: Block, xs: seq<Block>): (ys: seq<Block>)
    requires Inverse(c, n) && |iv.words| == n && Blocks(xs, n)
    ensures |ys| == |xs| && Blocks(ys, n)
    decreases |xs|
  {
    if xs == [] then []
    else
      assert Undone(c, XorBlock(iv, xs[0]));
      var y := c.enc(XorBlock(iv, xs[0]));
      [y] + Encrypted(c, n, y, xs[1..])
  }

  ghost function Decrypted(c: Cipher, n: nat, iv: Block, ys: seq<Block>): (xs: seq<Block>)
    requires Inverse(c, n) && |iv.words| == n && Blocks(ys, n)
    ensures |xs| == |ys| && Blocks(xs, n)
    decreases |ys|
  {
    if ys == [] then []
    else
      assert Undone(c, ys[0]);
      [XorBlock(c.dec(ys[0]), iv)] + Decrypted(c, n, ys[0], ys[1..])
  }

  /** Decryption from the same initial value recovers what was encrypted. */
  lemma {:induction false} DecryptEncrypt(c: Cipher, n: nat, iv: Block, xs: seq<Block>)
    requires Inverse(c, n) && |iv.words| == n && Blocks(xs, n)
    ensures Decrypted(c, n, iv, Encrypted(c, n, iv, xs)) == xs
    decreases |xs|
  {
    if xs != [] {
      var z := XorBlock(iv, xs[0]);
      assert Undone(c, z);
      var y := c.enc(z);
      var rest := Encrypted(c, n, y, xs[1..]);
      hide Inverse;
      XorBlockTwice(iv, xs[0]);
      assert ([y] + rest)[1..] == rest;
      DecryptEncrypt(c, n, y, xs[1..]);
    }
  }

  /** Encrypting in two calls, the second continuing from the chaining value of the first, is encrypting in
      one. */
  lemma {:induction false} EncryptSplit(c: Cipher, n: nat, iv: Block, xs: seq<Block>, ys: seq<Block>)
    requires Inverse(c, n) && |iv.words| == n && Blocks(xs, n) && Blocks(ys, n)
    ensures Blocks(xs + ys, n) && |Last(iv, Encrypted(c, n, iv, xs)).words| == n
    ensures Encrypted(c, n, iv, xs + ys)
         == Encrypted(c, n, iv, xs) + Encrypted(c, n, Last(iv, Encrypted(c, n, iv, xs)), ys)
    decreases |xs|
  {
    BlocksAppend(xs, ys, n);
    LastSize(iv, Encrypted(c, n, iv, xs), n);
    if xs == [] {
      assert xs + ys == ys;
    } else {
      var y := EncryptedStep(c, n, iv, xs);
      var y' := EncryptedStep(c, n, iv, xs + ys);
      hide Inverse, Encrypted, Blocks, XorBlock;
      assert (xs + ys)[1..] == xs[1..] + ys;
      EncryptSplit(c, n, y, xs[1..], ys);
      LastStep(iv, y, Encrypted(c, n, y, xs[1..]));
    }
  }

  lemma EncryptedStep(c: Cipher, n: nat, iv: Block, xs: seq<Block>) returns (y: Block)
    requires Inverse(c, n) && |iv.words| == n && Blocks(xs, n) && xs != []
    ensures y == c.enc(XorBlock(iv, xs[0])) && |y.words| == n && Blocks(xs[1..], n)
    ensures Encrypted(c, n, iv, xs) == [y] + Encrypted(c, n, y, xs[1..])
  {
    assert Undone(c, XorBlock(iv, xs[0]));
    y := c.enc(XorBlock(iv, xs[0]));
  }

  lemma BlocksAppend(xs: seq<Block>, ys: seq<Block>, n: nat)
    requires Blocks(xs, n) && Blocks(ys, n)
    ensures Blocks(xs + ys, n)
  {
  }

  lemma LastSize(iv: Block, ys: seq<Block>, n: nat)
    requires |iv.words| == n && Blocks(ys, n)
    ensures |Last(iv, ys).words| == n
  {
  }

  lemma LastStep(iv: Block, y: Block, ys: seq<Block>)
    ensures Last(iv, [y] + ys) == Last(y, ys)
  {
  }

  /** Likewise for decryption. */
  lemma {:induction false} DecryptSplit(c: Cipher, n: nat, iv: Block, xs: seq<Block>, ys: seq<Block>)
    requires Inverse(c, n) && |iv.words| == n && Blocks(xs, n) && Blocks(ys, n)
    ensures Blocks(xs + ys, n) && |Last(iv, xs).words| == n
    ensures Decrypted(c, n, iv, xs + ys) == Decrypted(c, n, iv, xs) + Decrypted(c, n, Last(iv, xs), ys)
    decreases |xs|
  {
    BlocksAppend(xs, ys, n);
    LastSize(iv, xs, n);
    if xs == [] {
      assert xs + ys == ys;
    } else {
      DecryptedStep(c, n, iv, xs);
      DecryptedStep(c, n, iv, xs + ys);
      hide Inverse, Decrypted, Blocks, XorBlock;
      assert (xs + ys)[1..] == xs[1..] + ys;
      DecryptSplit(c, n, xs[0], xs[1..], ys);
      assert [xs[0]] + xs[1..] == xs;
      LastStep(iv, xs[0], xs[1..]);
    }
  }

  lemma DecryptedStep(c: Cipher, n: nat, iv: Block, ys: seq<Block>)
    requires Inverse(c, n) && |iv.words| == n && Blocks(ys, n) && ys != []
    ensures |ys[0].words| == |c.dec(ys[0]).words| == n && Blocks(ys[1..], n)
    ensures Decrypted(c, n, iv, ys) == [XorBlock(c.dec(ys[0]), iv)] + Decrypted(c, n, ys[0], ys[1..])
  {
    assert Undone(c, ys[0]);
  }

  //////////////////////////////////////////////////////////////////////////////
  // In place
  //////////////////////////////////////////////////////////////////////////////

  /** cbc_xor: word by word into the second operand. */
  method CbcXor(src: Block, dst: Block) returns (r: Block)
    requires |src.words| == |dst.words|
    ensures r == XorBlock(dst, src)
  {
    hide XorWord;
    var ws := dst.words;
    for i := 0 to |ws|
      invariant |ws| == |dst.words|
      invariant forall j :: 0 <= j < |ws| ==>
                  ws[j] == if j < i then XorWord(dst.words[j], src.words[j]) else dst.words[j]
    {
      ws := ws[i := XorWord(ws[i], src.words[i])];
    }
    r := Block(ws);
    assert ws == XorBlock(dst, src).words;
  }

  /** cbc_encrypt: the context is the chaining value. Source and destination may be the same buffer. */
  method CbcEncrypt(c: Cipher, ghost n: nat, src: array<Block>, dst: array<Block>, len: nat, iv: Block) returns (ctx: Block)
    requires Inverse(c, n) && |iv.words| == n && len <= src.Length && len <= dst.Length && Blocks(src[..len], n)
    modifies dst
    ensures dst[..len] == Encrypted(c, n, iv, old(src[..len]))
    ensures ctx == Last(iv, dst[..len])
    ensures dst[len..] == old(dst[len..])
  {
    ghost var xs := src[..len];
    hide XorBlock, Inverse, Encrypted, Blocks;
    ctx := iv;
    ghost var ys := [];
    EncryptStart(c, n, iv, xs);
    for k := 0 to len
      invariant |ctx.words| == n && Blocks(xs[k..], n)
      invariant src[k..len] == xs[k..]
      invariant ys == dst[..k] && ctx == Last(iv, ys)
      invariant ys + Encrypted(c, n, ctx, xs[k..]) == Encrypted(c, n, iv, xs)
      invariant dst[len..] == old(dst[len..])
    {
      assert xs[k..][0] == src[k] && xs[k..][1..] == xs[k + 1..];
      ghost var y := EncryptedStep(c, n, ctx, xs[k..]);
      FirstBlock(xs[k..], n);
      ctx := CbcXor(src[k], ctx);
      dst[k] := c.enc(ctx);
      ctx := dst[k];
      assert ys + ([y] + Encrypted(c, n, y, xs[k + 1..])) == (ys + [y]) + Encrypted(c, n, y, xs[k + 1..]);
      ys := ys + [y];
    }
    EncryptStart(c, n, ctx, xs[len..]);
  }

  lemma EncryptStart(c: Cipher, n: nat, iv: Block, xs: seq<Block>)
    requires Inverse(c, n) && |iv.words| == n && Blocks(xs, n)
    ensures xs == [] ==> Encrypted(c, n, iv, xs) == []
    ensures xs[0..] == xs && [] + Encrypted(c, n, iv, xs) == Encrypted(c, n, iv, xs)
  {
    hide Inverse;
  }

  lemma FirstBlock(xs: seq<Block>, n: nat)
    requires Blocks(xs, n) && xs != []
    ensures |xs[0].words| == n
  {
  }

  /** cbc_decrypt: the cipher block is kept for the chain before it may be overwritten. */
  method CbcDecrypt(c: Cipher, ghost n: nat, src: array<Block>, dst: array<Block>, len: nat, iv: Block) returns (ctx: Block)
    requires Inverse(c, n) && |iv.words| == n && len <= src.Length && len <= dst.Length && Blocks(src[..len], n)
    modifies dst
    ensures dst[..len] == Decrypted(c, n, iv, old(src[..len]))
    ensures ctx == Last(iv, old(src[..len]))
    ensures dst[len..] == old(dst[len..])
  {
    hide XorBlock, Inverse, Decrypted, Blocks, Last;
    ghost var ys := src[..len];
    ctx := iv;
    ghost var xs := [];
    DecryptStart(c, n, iv, ys);
    for k := 0 to len
      invariant src[k..len] == ys[k..] && dst[..k] == xs && dst[len..] == old(dst[len..])
      invariant Decrypting(c, n, iv, ys, k, xs, ctx)
    {
      assert ys[k] == ys[k..][0] == src[k];
      DecryptNext(c, n, iv, ys, k, xs, ctx);
      var next := src[k];
      dst[k] := c.dec(src[k]);
      dst[k] := CbcXor(ctx, dst[k]);
      ctx := next;
      xs := xs + [dst[k]];
    }
    DecryptEnd(c, n, iv, ys, xs, ctx);
  }

  /** k blocks are decrypted to xs, and the next is combined with ctx. */
  ghost predicate Decrypting(c: Cipher, n: nat, iv: Block, ys: seq<Block>, k: nat, xs: seq<Block>, ctx: Block)
    requires Inverse(c, n)
  {
    && k <= |ys| && |iv.words| == |ctx.words| == n && Blocks(ys, n) && Blocks(ys[k..], n)
    && ctx == Last(iv, ys[..k])
    && xs + Decrypted(c, n, ctx, ys[k..]) == Decrypted(c, n, iv, ys)
  }

  lemma DecryptNext(c: Cipher, n: nat, iv: Block, ys: seq<Block>, k: nat, xs: seq<Block>, ctx: Block)
    requires Inverse(c, n) && k < |ys| && Decrypting(c, n, iv, ys, k, xs, ctx)
    ensures |ctx.words| == |c.dec(ys[k]).words| == n
    ensures Decrypting(c, n, iv, ys, k + 1, xs + [XorBlock(c.dec(ys[k]), ctx)], ys[k])
  {
    hide XorBlock, Inverse, Decrypted;
    assert ys[k..][0] == ys[k] && ys[k..][1..] == ys[k + 1..] && ys[..k + 1][k] == ys[k];
    DecryptedStep(c, n, ctx, ys[k..]);
    var x, rest := XorBlock(c.dec(ys[k]), ctx), Decrypted(c, n, ys[k], ys[k + 1..]);
    assert xs + ([x] + rest) == (xs + [x]) + rest;
  }

  lemma DecryptEnd(c: Cipher, n: nat, iv: Block, ys: seq<Block>, xs: seq<Block>, ctx: Block)
    requires Inverse(c, n) && Decrypting(c, n, iv, ys, |ys|, xs, ctx)
    ensures |iv.words| == n && Blocks(ys, n) && xs == Decrypted(c, n, iv, ys) && ctx == Last(iv, ys)
  {
    hide Inverse;
    assert ys[..|ys|] == ys && ys[|ys|..] == [];
  }

  lemma DecryptStart(c: Cipher, n: nat, iv: Block, ys: seq<Block>)
    requires Inverse(c, n) && |iv.words| == n && Blocks(ys, n)
    ensures Decrypting(c, n, iv, ys, 0, [], iv)
  {
    hide Inverse, Decrypted;
    assert ys[0..] == ys;
  }
}
