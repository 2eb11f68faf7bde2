/** Cipher block chaining over an abstract block cipher (NIST SP 800-38A, section 6.2). */
module Cbc {
  import opened Wrappers

  const BLOCK: nat := 16

  type Block = b: seq<Byte> | |b| == 16 witness seq(16, _ => 0)

  type BlockCipher = Block -> Block

  function Xor(a: Block, b: Block): Block {
    seq(16, i requires 0 <= i < 16 => a[i] ^ b[i])
  }

  /** The plaintext of whole blocks: each block is decrypted and xored with the ciphertext
      block before it, the first with the initialization vector. */
  function Decrypt(d: BlockCipher, iv: Block, c: seq<Byte>): (p: seq<Byte>)
    requires |c| % BLOCK == 0
    ensures |p| == |c|
    decreases |c|
  {
    if c == [] then []
    else Xor(d(c[..BLOCK]), iv) + Decrypt(d, c[..BLOCK], c[BLOCK..])
  }

  function Encrypt(e: BlockCipher, iv: Block, p: seq<Byte>): (c: seq<Byte>)
    requires |p| % BLOCK == 0
    ensures |c| == |p|
    decreases |p|
  {
    if p == [] then []
    else
      var first := e(Xor(p[..BLOCK], iv));
      first + Encrypt(e, first, p[BLOCK..])
  }

  ghost predicate Inverse(d: BlockCipher, e: BlockCipher) {
    forall b: Block :: d(e(b)) == b
  }

  lemma XorTwice(a: Block, b: Block)
    ensures Xor(Xor(a, b), b) == a
  {
    forall i | 0 <= i < 16 ensures Xor(Xor(a, b), b)[i] == a[i] {
      XorByte(a[i], b[i]);
    }
  }

  lemma XorByte(a: Byte, b: Byte)
    ensures (a ^ b) ^ b == a
  {
  }

  /** Decryption undoes encryption, for any block cipher that has an inverse. */
  lemma {:induction false} DecryptUndoesEncrypt(d: BlockCipher, e: BlockCipher, iv: Block, p: seq<Byte>)
    requires Inverse(d, e) && |p| % BLOCK == 0
    ensures Decrypt(d, iv, Encrypt(e, iv, p)) == p
    decreases |p|
  {
    if p != [] {
      var first := e(Xor(p[..BLOCK], iv));
      var head: seq<Byte>, rest: seq<Byte> := first, Encrypt(e, first, p[BLOCK..]);
      DecryptUndoesEncrypt(d, e, first, p[BLOCK..]);
      XorTwice(p[..BLOCK], iv);
      assert (head + rest)[..BLOCK] == head && (head + rest)[BLOCK..] == rest;
      assert p == p[..BLOCK] + p[BLOCK..];
    }
  }

  /** The vector for what follows the blocks of `c`: its last block. */
  function Last(iv: Block, c: seq<Byte>): Block {
    if |c| < BLOCK then iv else c[|c| - BLOCK..]
  }

  lemma {:induction false} DecryptSplit(d: BlockCipher, iv: Block, a: seq<Byte>, b: seq<Byte>)
    requires |a| % BLOCK == 0 && |b| % BLOCK == 0
    ensures Decrypt(d, iv, a + b) == Decrypt(d, iv, a) + Decrypt(d, Last(iv, a), b)
    decreases |a|
  {
    if a == [] {
      assert a + b == b;
    } else {
      assert (a + b)[..BLOCK] == a[..BLOCK] && (a + b)[BLOCK..] == a[BLOCK..] + b;
      DecryptSplit(d, a[..BLOCK], a[BLOCK..], b);
      assert Last(a[..BLOCK], a[BLOCK..]) == Last(iv, a);
    }
  }

  /** The plaintext of a run of blocks is that of the whole, in the same place. */
  lemma PlainPiece(d: BlockCipher, iv: Block, c: seq<Byte>, at: nat, n: nat)
    requires |c| % BLOCK == 0 && at % BLOCK == 0 && n % BLOCK == 0 && at + n <= |c|
    ensures Decrypt(d, Last(iv, c[..at]), c[at..at + n]) == Decrypt(d, iv, c)[at..at + n]
  {
    hide Decrypt, Last;
    var a, b, z := c[..at], c[at..at + n], c[at + n..];
    assert (|c| - (at + n)) % BLOCK == 0;
    DecryptSplit(d, iv, a, b);
    DecryptSplit(d, iv, a + b, z);
    assert a + b + z == c;
    var pa, pb, pz := Decrypt(d, iv, a), Decrypt(d, Last(iv, a), b), Decrypt(d, Last(iv, a + b), z);
    Middle(pa, pb, pz);
  }

  lemma Middle(a: seq<Byte>, b: seq<Byte>, c: seq<Byte>)
    ensures (a + b + c)[|a|..|a| + |b|] == b
  {
  }
}
