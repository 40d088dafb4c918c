/** Bytes, little-endian integers, in-place writes seen on values, and exclusive or. */
module Bytes {
  type byte = x: int | 0 <= x < 256

  // Sizes are 64-bit unsigned integers (`size_t`); arithmetic that can leave that range is reduced.
  const TWO64: nat := 0x1_0000_0000_0000_0000

  function Min(a: nat, b: nat): (r: nat)
    ensures r <= a && r <= b && (r == a || r == b)
  {
    if a < b then a else b
  }

  function Zeros(n: nat): (s: seq<byte>)
    ensures |s| == n && forall i :: 0 <= i < n ==> s[i] == 0
  {
    seq(n, _ => 0)
  }

  /** The contents of a buffer after `data` has been written at `pos`. */
  function Splice(mem: seq<byte>, pos: nat, data: seq<byte>): (r: seq<byte>)
    requires pos + |data| <= |mem|
    ensures |r| == |mem|
  {
    mem[..pos] + data + mem[pos + |data|..]
  }

  /** The bytes written are where they were written, and no other byte changes. */
  lemma SpliceAt(mem: seq<byte>, pos: nat, data: seq<byte>, i: nat)
    requires pos + |data| <= |mem| && i < |mem|
    ensures Splice(mem, pos, data)[i] == if pos <= i < pos + |data| then data[i - pos] else mem[i]
  {
  }

  /** Two adjacent writes are one write. */
  lemma SpliceTwice(mem: seq<byte>, pos: nat, a: seq<byte>, b: seq<byte>)
    requires pos + |a| + |b| <= |mem|
    ensures Splice(Splice(mem, pos, a), pos + |a|, b) == Splice(mem, pos, a + b)
  {
  }

  // --- Little-endian integers ---------------------------------------------------------------

  function FromLE(s: seq<byte>): nat {
    if s == [] then 0 else s[0] + 256 * FromLE(s[1..])
  }

  function ToLE(v: nat, width: nat): (s: seq<byte>)
    ensures |s| == width
  {
    if width == 0 then [] else [v % 256] + ToLE(v / 256, width - 1)
  }

  function Pow256(n: nat): (r: nat)
    ensures r > 0
  {
    if n == 0 then 1 else 256 * Pow256(n - 1)
  }

  lemma {:induction false} LERoundTrip(v: nat, width: nat)
    requires v < Pow256(width)
    ensures FromLE(ToLE(v, width)) == v
  {
    if width > 0 {
      LERoundTrip(v / 256, width - 1);
      assert ToLE(v, width)[1..] == ToLE(v / 256, width - 1);
    }
  }

  lemma {:induction false} LEUnique(s: seq<byte>)
    ensures FromLE(s) < Pow256(|s|)
    ensures ToLE(FromLE(s), |s|) == s
  {
    if s != [] {
      LEUnique(s[1..]);
      assert FromLE(s) / 256 == FromLE(s[1..]);
    }
  }

  lemma QuotientIs(v: nat, n: nat, q: nat, r: nat)
    requires v == n * q + r && r < n
    ensures v / n == q && v % n == r
  {
    var q', r' := v / n, v % n;
    assert v == n * q' + r';
    assert n * (q' + 1) == n * q' + n && n * (q + 1) == n * q + n;
    if q > q' {
      MulMonotone(n, q' + 1, q);
    } else if q < q' {
      MulMonotone(n, q + 1, q');
    }
  }

  lemma MulMonotone(n: nat, a: nat, b: nat)
    requires a <= b
    ensures n * a <= n * b
  {
  }

  /** Digit `i` of an integer to base 256, from the lowest on. */
  function Digit(v: nat, i: nat): byte {
    if i == 0 then v % 256 else Digit(v / 256, i - 1)
  }

  /** The bytes of an integer are its digits, the lowest first. */
  lemma {:induction false} ToLEDigit(v: nat, width: nat, i: nat)
    requires i < width
    ensures ToLE(v, width)[i] == Digit(v, i)
  {
    if i > 0 {
      ToLEDigit(v / 256, width - 1, i - 1);
    }
  }

  lemma RemainderSplit(v: nat, n: nat)
    requires n > 0
    ensures v % (256 * n) == v % 256 + 256 * (v / 256 % n)
  {
    var h := v / 256;
    var q, high := h / n, h % n;
    assert h == n * q + high;
    assert 256 * (n * q + high) == 256 * n * q + 256 * high by { assert 256 * (n * q) == 256 * n * q; }
    QuotientIs(v, 256 * n, q, v % 256 + 256 * high);
  }

  /** A few digits hold the remainder. */
  lemma {:induction false} LERemainder(v: nat, width: nat)
    ensures FromLE(ToLE(v, width)) == v % Pow256(width)
  {
    if width > 0 {
      LERemainder(v / 256, width - 1);
      RemainderSplit(v, Pow256(width - 1));
      assert ToLE(v, width)[1..] == ToLE(v / 256, width - 1);
    }
  }

  /** The integer in bytes has them as its digits. */
  lemma FromLEDigit(s: seq<byte>, i: nat)
    requires i < |s|
    ensures Digit(FromLE(s), i) == s[i]
  {
    LEUnique(s);
    ToLEDigit(FromLE(s), |s|, i);
  }

  // --- Exclusive or -------------------------------------------------------------------------

  function Pow2(n: nat): (r: nat)
    ensures r > 0
  {
    if n == 0 then 1 else 2 * Pow2(n - 1)
  }

  function XorBits(a: nat, b: nat, bits: nat): (r: nat)
    ensures r < Pow2(bits)
  {
    if bits == 0 then 0 else (a + b) % 2 + 2 * XorBits(a / 2, b / 2, bits - 1)
  }

  function Xor(a: byte, b: byte): (r: byte) {
    assert Pow2(8) == 256 by { Pow2Of8(); }
    XorBits(a, b, 8)
  }

  lemma Pow2Of8()
    ensures Pow2(8) == 256
  {
    assert Pow2(4) == 16;
    assert Pow2(6) == 64;
  }

  lemma ParityInvolution(a: nat, b: nat, high: nat)
    ensures var x := (a + b) % 2 + 2 * high; x % 2 == (a + b) % 2 && x / 2 == high && (x + b) % 2 == a % 2
  {
  }

  lemma {:induction false} XorBitsInvolution(a: nat, b: nat, bits: nat)
    requires a < Pow2(bits)
    ensures XorBits(XorBits(a, b, bits), b, bits) == a
  {
    if bits > 0 {
      var high := XorBits(a / 2, b / 2, bits - 1);
      ParityInvolution(a, b, high);
      XorBitsInvolution(a / 2, b / 2, bits - 1);
    }
  }

  /** Applying the same mask twice restores the byte. */
  lemma XorInvolution(a: byte, mask: byte)
    ensures Xor(Xor(a, mask), mask) == a
  {
    Pow2Of8();
    XorBitsInvolution(a, mask, 8);
  }

  /** Bit `i` of a number, from the lowest on. */
  function Bit(v: nat, i: nat): nat {
    if i == 0 then v % 2 else Bit(v / 2, i - 1)
  }

  lemma LowBit(a: nat, b: nat, bits: nat)
    requires bits > 0
    ensures XorBits(a, b, bits) % 2 == (a + b) % 2 && XorBits(a, b, bits) / 2 == XorBits(a / 2, b / 2, bits - 1)
  {
    ParityInvolution(a, b, XorBits(a / 2, b / 2, bits - 1));
  }

  lemma {:induction false} XorBitsAt(a: nat, b: nat, bits: nat, i: nat)
    requires i < bits
    ensures Bit(XorBits(a, b, bits), i) == (Bit(a, i) + Bit(b, i)) % 2
  {
    hide XorBits;
    LowBit(a, b, bits);
    if i > 0 {
      XorBitsAt(a / 2, b / 2, bits - 1, i - 1);
    } else {
      assert (a % 2 + b % 2) % 2 == (a + b) % 2;
    }
  }

  /** Each bit of the result is set exactly if it is set in one of the two. */
  lemma XorAt(a: byte, b: byte, i: nat)
    requires i < 8
    ensures Bit(Xor(a, b), i) == (Bit(a, i) + Bit(b, i)) % 2
  {
    XorBitsAt(a, b, 8, i);
  }

  lemma {:induction false} XorBitsZero(m: nat, bits: nat)
    requires m < Pow2(bits)
    ensures XorBits(0, m, bits) == m && XorBits(m, m, bits) == 0
  {
    if bits > 0 {
      XorBitsZero(m / 2, bits - 1);
      assert (m + m) % 2 == 0;
    }
  }

  lemma {:induction false} XorBitsCommutes(a: nat, b: nat, bits: nat)
    ensures XorBits(a, b, bits) == XorBits(b, a, bits)
  {
    if bits > 0 {
      XorBitsCommutes(a / 2, b / 2, bits - 1);
    }
  }

  /** A zero byte shows the mask, and a byte masked with itself is zero. */
  lemma XorZero(m: byte)
    ensures Xor(0, m) == m && Xor(m, 0) == m && Xor(m, m) == 0
  {
    Pow2Of8();
    XorBitsZero(m, 8);
    XorBitsCommutes(0, m, 8);
  }

  /** Different masks give different bytes. */
  lemma XorInjective(a: byte, m: byte, n: byte)
    ensures Xor(a, m) == Xor(a, n) ==> m == n
  {
    XorBitsCommutes(a, m, 8);
    XorBitsCommutes(a, n, 8);
    XorInvolution(m, a);
    XorInvolution(n, a);
  }
}
