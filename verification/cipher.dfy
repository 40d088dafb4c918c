/**
 The stream cipher of a connection.

 A context is either the null cipher a connection starts with or a keystream together with the
 position of the next unused mask. Encryption and decryption are the same masking; only the
 position tells the two directions apart. The keystream itself (RC4) is a parameter.
 */
module Ciphers {
  import opened Bytes

  datatype Cipher = Null | Keyed(keystream: nat -> byte, pos: nat)

  /** What the context turns `data` into. */
  function Crypt(c: Cipher, data: seq<byte>): (r: seq<byte>)
    ensures |r| == |data|
  {
    match c
    case Null => data
    case Keyed(ks, pos) => seq(|data|, i requires 0 <= i < |data| => Xor(data[i], ks(pos + i)))
  }

  /** The context after `n` more bytes went through it. */
  function Advance(c: Cipher, n: nat): Cipher {
    match c
    case Null => Null
    case Keyed(ks, pos) => Keyed(ks, pos + n)
  }

  lemma AdvanceTwice(c: Cipher, m: nat, n: nat)
    ensures Advance(Advance(c, m), n) == Advance(c, m + n)
    ensures Advance(c, 0) == c
  {
  }

  /** Chunks may be processed one after the other: the keystream positions tile. */
  lemma CryptSplit(c: Cipher, a: seq<byte>, b: seq<byte>)
    ensures Crypt(c, a + b) == Crypt(c, a) + Crypt(Advance(c, |a|), b)
  {
  }

  lemma CryptTake(c: Cipher, s: seq<byte>, k: nat)
    requires k <= |s|
    ensures Crypt(c, s[..k]) == Crypt(c, s)[..k]
    ensures Crypt(Advance(c, k), s[k..]) == Crypt(c, s)[k..]
  {
    CryptSplit(c, s[..k], s[k..]);
    assert s[..k] + s[k..] == s;
  }

  /** Decrypting with a context at the same position restores what was encrypted. */
  lemma CryptInvolution(c: Cipher, s: seq<byte>)
    ensures Crypt(c, Crypt(c, s)) == s
  {
    if c.Keyed? {
      forall i | 0 <= i < |s| ensures Crypt(c, Crypt(c, s))[i] == s[i] {
        XorInvolution(s[i], c.keystream(c.pos + i));
      }
    }
  }

  // --- Positions --------------------------------------------------------------------------------

  /** Zero bytes show the keystream: from the position of the context on, one place for each byte. */
  lemma ZerosShowKeystream(ks: nat -> byte, pos: nat, n: nat)
    ensures Crypt(Keyed(ks, pos), Zeros(n)) == seq(n, i requires 0 <= i < n => ks(pos + i))
    ensures forall data: seq<byte> :: Crypt(Null, data) == data
  {
    var out := Crypt(Keyed(ks, pos), Zeros(n));
    forall i | 0 <= i < n ensures out[i] == ks(pos + i) {
      XorZero(ks(pos + i));
    }
  }

  /** Byte by byte: what encryption makes of `data`, and where the next byte starts. */
  lemma CryptBytes(c: Cipher, data: seq<byte>)
    ensures c.Null? ==> Crypt(c, data) == data && Advance(c, |data|) == Null
    ensures c.Keyed? ==> forall i :: 0 <= i < |data| ==> Crypt(c, data)[i] == Xor(data[i], c.keystream(c.pos + i))
    ensures c.Keyed? ==> Advance(c, |data|) == Keyed(c.keystream, c.pos + |data|)
  {
  }

  /** Two keystreams that differ in one place only. */
  ghost predicate DifferAt(a: nat -> byte, b: nat -> byte, q: nat) {
    a(q) != b(q) && forall i: nat :: i != q ==> a(i) == b(i)
  }

  /** A place of the keystream decides one byte, the one that many bytes behind the position of the
      context, and no other. */
  lemma OneByteEach(a: nat -> byte, b: nat -> byte, pos: nat, q: nat, data: seq<byte>, i: nat)
    requires DifferAt(a, b, q) && i < |data|
    ensures Crypt(Keyed(a, pos), data)[i] != Crypt(Keyed(b, pos), data)[i] <==> pos + i == q
  {
    XorInjective(data[i], a(pos + i), b(pos + i));
  }

  /** Two messages, one behind the other: no place of the keystream decides a byte of both. */
  lemma NoPlaceTwice(a: nat -> byte, b: nat -> byte, pos: nat, q: nat, x: seq<byte>, y: seq<byte>, i: nat, j: nat)
    requires DifferAt(a, b, q) && i < |x| && j < |y|
    ensures Crypt(Keyed(a, pos), x)[i] == Crypt(Keyed(b, pos), x)[i] ||
      Crypt(Advance(Keyed(a, pos), |x|), y)[j] == Crypt(Advance(Keyed(b, pos), |x|), y)[j]
  {
    OneByteEach(a, b, pos, q, x, i);
    OneByteEach(a, b, pos + |x|, q, y, j);
  }
}
