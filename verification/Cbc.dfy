/** Cipher block chaining over any invertible 16-byte block cipher: AES_cbc_encrypt with AES itself left abstract. */
module Cbc {
  import opened Bytes

  const BLOCK := 16

  datatype BlockCipher = BlockCipher(enc: seq<byte> -> seq<byte>, dec: seq<byte> -> seq<byte>)

  /** dec undoes enc on blocks. */
  ghost predicate Invertible(c: BlockCipher) {
    && (forall b: seq<byte> {:trigger c.enc(b)} :: |b| == BLOCK ==> |c.enc(b)| == BLOCK && c.dec(c.enc(b)) == b)
    && (forall b: seq<byte> {:trigger c.dec(b)} :: |b| == BLOCK ==> |c.dec(b)| == BLOCK)
  }

  /** Encrypts n blocks. */
  ghost function Encrypt(c: BlockCipher, iv: seq<byte>, p: seq<byte>, n: nat): (r: seq<byte>)
    requires Invertible(c) && |iv| == BLOCK && |p| == BLOCK * n
    ensures |r| == |p|
    decreases n
  {
    if n == 0 then []
    else
      var x := c.enc(Xor(p[..BLOCK], iv));
      x + Encrypt(c, x, p[BLOCK..], n - 1)
  }

  ghost function Decrypt(c: BlockCipher, iv: seq<byte>, q: seq<byte>, n: nat): (r: seq<byte>)
    requires Invertible(c) && |iv| == BLOCK && |q| == BLOCK * n
    ensures |r| == |q|
    decreases n
  {
    if n == 0 then []
    else Xor(c.dec(q[..BLOCK]), iv) + Decrypt(c, q[..BLOCK], q[BLOCK..], n - 1)
  }

  /** Decryption undoes encryption. */
  lemma {:induction false} DecryptEncrypt(c: BlockCipher, iv: seq<byte>, p: seq<byte>, n: nat)
    requires Invertible(c) && |iv| == BLOCK && |p| == BLOCK * n
    ensures Decrypt(c, iv, Encrypt(c, iv, p, n), n) == p
    decreases n
  {
    if n > 0 {
      var x := c.enc(Xor(p[..BLOCK], iv));
      var q := Encrypt(c, iv, p, n);
      assert q[..BLOCK] == x && q[BLOCK..] == Encrypt(c, x, p[BLOCK..], n - 1);
      XorCancels(p[..BLOCK], iv);
      DecryptEncrypt(c, x, p[BLOCK..], n - 1);
      assert Decrypt(c, iv, q, n) == p[..BLOCK] + p[BLOCK..];
    }
  }

  /** Blocks that follow a ciphertext do not reach back into its plaintext. */
  lemma {:induction false} DecryptPrefix(c: BlockCipher, iv: seq<byte>, q: seq<byte>, n: nat, tail: seq<byte>, m: nat)
    requires Invertible(c) && |iv| == BLOCK && |q| == BLOCK * n && |tail| == BLOCK * m
    ensures Decrypt(c, iv, q + tail, n + m)[..|q|] == Decrypt(c, iv, q, n)
    decreases n
  {
    var all := Decrypt(c, iv, q + tail, n + m);
    if n == 0 {
      assert all[..|q|] == [];
    } else {
      var first, rest := q[..BLOCK], q[BLOCK..];
      assert (q + tail)[..BLOCK] == first && (q + tail)[BLOCK..] == rest + tail;
      var x, d := Xor(c.dec(first), iv), Decrypt(c, first, rest + tail, n - 1 + m);
      DecryptPrefix(c, first, rest, n - 1, tail, m);
      PrefixStep(x, d, |rest|);
      assert all == x + d && |q| == |x| + |rest|;
      assert all[..|q|] == x + d[..|rest|];
      assert Decrypt(c, iv, q, n) == x + d[..|rest|];
    }
  }

  lemma PrefixStep(a: seq<byte>, d: seq<byte>, n: nat)
    requires n <= |d|
    ensures (a + d)[..|a| + n] == a + d[..n]
  {}

  /** Decrypting one block too many still gives the plaintext first. */
  lemma DecryptAhead(c: BlockCipher, iv: seq<byte>, p: seq<byte>, n: nat, tail: seq<byte>)
    requires Invertible(c) && |iv| == BLOCK && |p| == BLOCK * n && |tail| == BLOCK
    ensures Decrypt(c, iv, Encrypt(c, iv, p, n) + tail, n + 1)[..|p|] == p
  {
    DecryptPrefix(c, iv, Encrypt(c, iv, p, n), n, tail, 1);
    DecryptEncrypt(c, iv, p, n);
  }
}
