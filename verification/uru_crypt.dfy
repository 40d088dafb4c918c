/**
 Key agreement. Client and server each raise the other's public value to their own secret; the
 result, as 64 little-endian bytes, masks a seed the server sends in the clear.
 Primes, randomness and the text form of keys are not part of this module.
 */
module UruCrypt {
  import opened Bytes

  const KEY_SIZE: nat := 64

  function Pow(b: nat, e: nat): nat {
    if e == 0 then 1 else b * Pow(b, e - 1)
  }

  /** Modular exponentiation; without a modulus the library leaves its zeroed result as it is. */
  function ModExp(b: nat, e: nat, n: nat): (r: nat)
    ensures n > 0 ==> r < n
    ensures n == 0 ==> r == 0
  {
    if n == 0 then 0 else Pow(b, e) % n
  }

  /** One more factor at a time, reduced each time. */
  lemma ModExpSteps(b: nat, e: nat, n: nat)
    requires n > 0
    ensures ModExp(b, 0, n) == 1 % n
    ensures ModExp(b, e + 1, n) == b * ModExp(b, e, n) % n
  {
    ModMul(b, Pow(b, e), n);
  }

  lemma {:induction false} PowAdd(b: nat, d: nat, e: nat)
    ensures Pow(b, d + e) == Pow(b, d) * Pow(b, e)
  {
    if d == 0 {
      assert Pow(b, 0) * Pow(b, e) == Pow(b, e);
    } else {
      PowAdd(b, d - 1, e);
      calc {
        Pow(b, d + e);
        b * Pow(b, d - 1 + e);
        b * (Pow(b, d - 1) * Pow(b, e));
        (b * Pow(b, d - 1)) * Pow(b, e);
        Pow(b, d) * Pow(b, e);
      }
    }
  }

  lemma {:induction false} PowPow(b: nat, d: nat, e: nat)
    ensures Pow(Pow(b, d), e) == Pow(b, d * e)
  {
    if e == 0 {
      assert d * e == 0;
    } else {
      PowPow(b, d, e - 1);
      assert d + d * (e - 1) == d * e;
      PowAdd(b, d, d * (e - 1));
    }
  }

  lemma ModMul(a: nat, b: nat, n: nat)
    requires n > 0
    ensures (a * (b % n)) % n == (a * b) % n
  {
    var q := b / n;
    assert b == q * n + b % n;
    assert a * b == a * (b % n) + (a * q) * n by {
      assert a * (q * n) == (a * q) * n;
      assert a * (q * n + b % n) == a * (q * n) + a * (b % n);
    }
    AddMultiple(a * (b % n), a * q, n);
  }

  lemma {:induction false} AddMultiple(x: nat, k: nat, n: nat)
    requires n > 0
    ensures (x + k * n) % n == x % n
  {
    if k > 0 {
      AddMultiple(x, k - 1, n);
      var less := (k - 1) * n;
      assert k * n == less + n;
      AddOnce(x + less, n);
    }
  }

  lemma AddOnce(x: nat, n: nat)
    requires n > 0
    ensures (x + n) % n == x % n
  {
    var q, r := x / n, x % n;
    assert x == q * n + r;
    assert x + n == (q + 1) * n + r by { assert (q + 1) * n == q * n + n; }
    RemainderUnique(x + n, n, q + 1, r);
  }

  lemma RemainderUnique(x: nat, n: nat, q: nat, r: nat)
    requires x == q * n + r && r < n
    ensures x % n == r
  {
    assert n * q == q * n;
    QuotientIs(x, n, q, r);
  }

  /** Reducing the base first changes nothing. */
  lemma {:induction false} PowMod(b: nat, e: nat, n: nat)
    requires n > 0
    ensures Pow(b % n, e) % n == Pow(b, e) % n
  {
    if e > 0 {
      PowMod(b, e - 1, n);
      var p, q := Pow(b % n, e - 1), Pow(b, e - 1);
      calc {
        Pow(b % n, e) % n;
        ((b % n) * p) % n;
        { ModMul(b % n, p, n); }
        ((b % n) * (p % n)) % n;
        { assert p % n == q % n; }
        ((b % n) * (q % n)) % n;
        { ModMul(b % n, q, n); }
        ((b % n) * q) % n;
        { assert (b % n) * q == q * (b % n); ModMul(q, b, n); }
        (q * b) % n;
        { assert q * b == b * q; }
        Pow(b, e) % n;
      }
    }
  }

  /** Both sides arrive at the same value, for every base, modulus and pair of secrets. */
  lemma ModExpCommutes(g: nat, b: nat, k: nat, n: nat)
    ensures ModExp(ModExp(g, b, n), k, n) == ModExp(ModExp(g, k, n), b, n)
  {
    if n > 0 {
      PowMod(Pow(g, b), k, n);
      PowMod(Pow(g, k), b, n);
      PowPow(g, b, k);
      PowPow(g, k, b);
      assert b * k == k * b;
    }
  }

  /** The key from a shared value and the seed. */
  function Mask(shared: nat, seed: seq<byte>): (key: seq<byte>)
    requires |seed| <= KEY_SIZE
    ensures |key| == |seed|
  {
    var bytes := ToLE(shared, KEY_SIZE);
    seq(|seed|, i requires 0 <= i < |seed| => Xor(bytes[i], seed[i]))
  }

  /** Unmasked with the seed, byte `i` of the key is byte `i` of the shared value, the lowest first. */
  predicate KeyHolds(key: seq<byte>, seed: seq<byte>, shared: nat) {
    |key| == |seed| && forall i :: 0 <= i < |seed| ==> Xor(key[i], seed[i]) == Digit(shared, i)
  }

  /** Unmasked with the seed, the key is the front of the shared value, the lowest byte first. */
  lemma Unmasked(shared: nat, seed: seq<byte>)
    requires |seed| <= KEY_SIZE
    ensures var key := Mask(shared, seed);
      && KeyHolds(key, seed, shared)
      && FromLE(seq(|seed|, i requires 0 <= i < |seed| => Xor(key[i], seed[i]))) == shared % Pow256(|seed|)
  {
    var key, n := Mask(shared, seed), |seed|;
    var bare := seq(n, i requires 0 <= i < n => Xor(key[i], seed[i]));
    forall i | 0 <= i < n ensures bare[i] == ToLE(shared, n)[i] == Digit(shared, i) {
      XorInvolution(ToLE(shared, KEY_SIZE)[i], seed[i]);
      ToLEDigit(shared, KEY_SIZE, i);
      ToLEDigit(shared, n, i);
    }
    assert bare == ToLE(shared, n);
    LERemainder(shared, n);
  }

  /** The server's key, from its secret `k`, the modulus and what the client sent. */
  function ServerKey(k: nat, n: nat, yData: seq<byte>, seed: seq<byte>): seq<byte>
    requires |seed| <= KEY_SIZE
  {
    Mask(ModExp(FromLE(yData), k, n), seed)
  }

  /** The client's key, from its secret `b` and the public value x of the server. */
  function ClientKey(b: nat, n: nat, x: nat, seed: seq<byte>): seq<byte>
    requires |seed| <= KEY_SIZE
  {
    Mask(ModExp(x, b, n), seed)
  }

  /**
   Key agreement: with the client sending g^b mod n as 64 bytes, and knowing x = g^k mod n, both
   sides hold the same key; the 64-byte form of the values loses nothing.
   */
  lemma KeyAgreement(g: nat, b: nat, k: nat, n: nat, seed: seq<byte>)
    requires 0 < n <= Pow256(KEY_SIZE) && |seed| <= KEY_SIZE
    ensures FromLE(ToLE(ModExp(g, b, n), KEY_SIZE)) == ModExp(g, b, n)
    ensures ServerKey(k, n, ToLE(ModExp(g, b, n), KEY_SIZE), seed) == ClientKey(b, n, ModExp(g, k, n), seed)
  {
    LERoundTrip(ModExp(g, b, n), KEY_SIZE);
    ModExpCommutes(g, b, k, n);
  }

  /** Fill `srvSeed` with the given random bytes and `key` with the session key. */
  method MakeServerKey(k: nat, n: nat, yData: seq<byte>, keysz: nat, random: seq<byte>,
    srvSeed: array<byte>, key: array<byte>)
    returns (ok: bool)
    requires srvSeed != key && srvSeed.Length == key.Length == keysz == |random| <= KEY_SIZE
    modifies srvSeed, key
    ensures ok <==> keysz <= |yData|
    ensures ok ==> srvSeed[..] == random && key[..] == ServerKey(k, n, yData, random)
    ensures ok ==> forall i :: 0 <= i < keysz ==>
      Xor(key[i], random[i]) == Digit(ModExp(FromLE(yData), k, n), i)
    ensures ok ==>
      var sent, made := srvSeed[..], key[..];
      FromLE(seq(keysz, i requires 0 <= i < |sent| && i < |made| => Xor(made[i], sent[i]))) ==
        ModExp(FromLE(yData), k, n) % Pow256(keysz)
    ensures !ok ==> srvSeed[..] == old(srvSeed[..]) && key[..] == old(key[..])
  {
    if |yData| < keysz {
      return false;
    }
    var y := FromLE(yData);
    var cliSeed := ToLE(ModExp(y, k, n), KEY_SIZE);
    forall i | 0 <= i < keysz {
      srvSeed[i] := random[i];
    }
    ghost var expected := ServerKey(k, n, yData, random);
    for i := 0 to keysz
      invariant srvSeed[..] == random
      invariant key[..i] == expected[..i]
    {
      key[i] := Xor(cliSeed[i], srvSeed[i]);
    }
    Unmasked(ModExp(y, k, n), random);
    ghost var sent, made := srvSeed[..], key[..];
    assert made == expected == Mask(ModExp(y, k, n), random);
    assert seq(keysz, i requires 0 <= i < |sent| && i < |made| => Xor(made[i], sent[i])) ==
      seq(|random|, i requires 0 <= i < |random| => Xor(expected[i], random[i]));
    return true;
  }
}
