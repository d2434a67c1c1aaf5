/**
 * The movement-profile checksum: a position-weighted XOR fold over the
 * bytes of a profile, which the registry feeds into its digest.
 */
module MoveDefCheckSum {
  /** An `unsigned char` of the profile's memory. */
  type Byte = x: int | 0 <= x < 0x100

  /** The source's `unsigned int`, in which the sum is accumulated. */
  type UInt32 = x: int | 0 <= x < 0x1_0000_0000

  /** Two to the power k, the bound below which a k-bit value lies. */
  function Pow2(k: nat): (p: nat)
    ensures p > 0
  {
    if k == 0 then 1 else 2 * Pow2(k - 1)
  }

  /** Bitwise exclusive or of two naturals, lowest bit first. */
  function XorBits(a: nat, b: nat): nat {
    if a == 0 && b == 0 then 0 else 2 * XorBits(a / 2, b / 2) + LowBit(a, b)
  }

  /** The low bit of the exclusive or: one when exactly one of a and b is odd. */
  function LowBit(a: nat, b: nat): nat {
    if a % 2 == b % 2 then 0 else 1
  }

  /** Exclusive or keeps values below a power of two below it. */
  lemma {:induction false} XorBitsBelow(a: nat, b: nat, k: nat)
    requires a < Pow2(k) && b < Pow2(k)
    ensures XorBits(a, b) < Pow2(k)
  {
    if a != 0 || b != 0 {
      XorBitsBelow(a / 2, b / 2, k - 1);
    }
  }

  /** Powers of two multiply by adding their exponents. */
  lemma {:induction false} Pow2Add(j: nat, k: nat)
    ensures Pow2(j + k) == Pow2(j) * Pow2(k)
  {
    if j > 0 {
      Pow2Add(j - 1, k);
    }
  }

  lemma Pow2Of32()
    ensures Pow2(32) == 0x1_0000_0000
  {
    assert Pow2(2) == 4;
    Pow2Add(2, 2);
    Pow2Add(4, 4);
    Pow2Add(8, 8);
    Pow2Add(16, 16);
  }

  /** The 32-bit exclusive or that accumulates the sum. */
  function Xor(a: UInt32, b: UInt32): UInt32 {
    Pow2Of32();
    XorBitsBelow(a, b, 32);
    XorBits(a, b)
  }

  /**
   * Contribution of the byte at zero-based index i: `((byte + 1) - minByte)
   * << 8` is i + 1 shifted on the signed pointer difference, multiplied by
   * the byte, and truncated to 32 bits when it is xor-ed into the unsigned
   * sum.
   */
  function Term(i: nat, b: Byte): UInt32 {
    ((i + 1) * 256 * b) % 0x1_0000_0000
  }

  /** The XOR of the first n bytes' contributions. */
  function CheckSumUpTo(bytes: seq<Byte>, n: nat): UInt32
    requires n <= |bytes|
  {
    if n == 0 then 0 else Xor(CheckSumUpTo(bytes, n - 1), Term(n - 1, bytes[n - 1]))
  }

  function CheckSum(bytes: seq<Byte>): UInt32 {
    CheckSumUpTo(bytes, |bytes|)
  }

  /**
   * `MoveDef::CalcCheckSum`, over the bytes from `speedModClass` through
   * `flowMapping`.
   */
  method CalcCheckSum(bytes: seq<Byte>) returns (sum: UInt32)
    ensures sum == CheckSum(bytes)
  {
    sum := 0;
    var i := 0;
    while i < |bytes|
      invariant 0 <= i <= |bytes|
      invariant sum == CheckSumUpTo(bytes, i)
    {
      sum := Xor(sum, Term(i, bytes[i]));
      i := i + 1;
    }
  }

  /** An all-zero byte range sums to zero. */
  lemma {:induction false} CheckSumOfZeros(bytes: seq<Byte>, n: nat)
    requires n <= |bytes|
    requires forall i :: 0 <= i < |bytes| ==> bytes[i] == 0
    ensures CheckSumUpTo(bytes, n) == 0
  {
    if n > 0 {
      CheckSumOfZeros(bytes, n - 1);
    }
  }

  /** Bytes after the first n do not affect the sum of the first n. */
  lemma {:induction false} CheckSumPrefix(bytes: seq<Byte>, more: seq<Byte>, n: nat)
    requires n <= |bytes|
    ensures CheckSumUpTo(bytes + more, n) == CheckSumUpTo(bytes, n)
  {
    if n > 0 {
      CheckSumPrefix(bytes, more, n - 1);
      assert (bytes + more)[n - 1] == bytes[n - 1];
    }
  }

  /** Appending a byte xors exactly its own contribution, at the next offset, into the sum. */
  lemma CheckSumAppend(bytes: seq<Byte>, b: Byte)
    ensures CheckSum(bytes + [b]) == Xor(CheckSum(bytes), Term(|bytes|, b))
  {
    CheckSumPrefix(bytes, [b], |bytes|);
  }

  /**
   * Changing one byte changes the sum by exactly its old and its new
   * contribution; no other offset's contribution moves.
   */
  lemma {:induction false} CheckSumUpdate(bytes: seq<Byte>, j: nat, b: Byte, n: nat)
    requires j < |bytes| && n <= |bytes|
    ensures CheckSumUpTo(bytes[j := b], n)
         == if j < n then Xor(Xor(CheckSumUpTo(bytes, n), Term(j, bytes[j])), Term(j, b))
            else CheckSumUpTo(bytes, n)
  {
    if n > 0 {
      CheckSumUpdate(bytes, j, b, n - 1);
      var x := CheckSumUpTo(bytes, n - 1);
      var t := Term(n - 1, bytes[n - 1]);
      if j == n - 1 {
        XorCancel(x, t, Term(j, b));
      } else if j < n - 1 {
        XorRotate(x, Term(j, bytes[j]), Term(j, b), t);
      }
    }
  }

  /**
   * At an offset below 65535 a byte's contribution determines the byte:
   * the product stays below 2^32, so the truncation loses nothing.
   */
  lemma TermInjective(i: nat, a: Byte, b: Byte)
    requires i + 1 < 0x1_0000 && a != b
    ensures Term(i, a) != Term(i, b)
  {
    var w := (i + 1) * 256;
    assert 0 < w < 0x100_0000;
    MulBelow(w, a, 0x100_0000, 0x100);
    MulBelow(w, b, 0x100_0000, 0x100);
    if a < b {
      MulStrict(w, a, b);
    } else {
      MulStrict(w, b, a);
    }
  }

  lemma MulBelow(w: nat, x: nat, wBound: nat, xBound: nat)
    requires w < wBound && x < xBound
    ensures w * x < wBound * xBound
  {
    if x > 0 {
      MulStrict(x, w, wBound);
      MulStrict(wBound, x, xBound);
    }
  }

  lemma MulStrict(w: nat, x: nat, y: nat)
    requires 0 < w && x < y
    ensures w * x < w * y
  {
  }

  /**
   * Changing any single byte at an offset below 65535 changes the checksum: the
   * sum is changed by the xor of the byte's old and new contribution, and
   * those differ.
   */
  lemma OneByteChanges(bytes: seq<Byte>, j: nat, b: Byte)
    requires j < |bytes| && j + 1 < 0x1_0000 && b != bytes[j]
    ensures CheckSum(bytes[j := b]) != CheckSum(bytes)
  {
    CheckSumUpdate(bytes, j, b, |bytes|);
    assert |bytes[j := b]| == |bytes|;
    TermInjective(j, bytes[j], b);
    XorChanges(CheckSum(bytes), Term(j, bytes[j]), Term(j, b));
  }

  /** Xor-ing one value out of a sum and a different one in changes the sum. */
  lemma XorChanges(s: UInt32, t: UInt32, u: UInt32)
    requires t != u
    ensures Xor(Xor(s, t), u) != s
  {
    if Xor(Xor(s, t), u) == s {
      XorAssoc(s, t, u);
      XorUnit(s);
      XorLeftCancel(s, Xor(t, u), 0);
      XorZero(t, u);
    }
  }

  /**
   * Two bytes that change together can cancel: 2 at offset 1 and 1 at
   * offset 2 both contribute 512, so these two profiles share a checksum.
   */
  lemma TwoByteCollision()
    ensures CheckSum([2, 0]) == CheckSum([0, 1]) == 512
  {
    assert Term(0, 2) == 512 && Term(1, 1) == 512 && Term(0, 0) == 0 && Term(1, 0) == 0;
    XorUnit(512);
    XorComm(0, 512);
    assert CheckSum([2, 0]) == Xor(Xor(0, 512), 0);
    assert CheckSum([0, 1]) == Xor(Xor(0, 0), 512);
    XorUnit(0);
  }

  /** One step of `XorBits`, also when both arguments are zero. */
  lemma XorBitsStep(a: nat, b: nat)
    ensures XorBits(a, b) == 2 * XorBits(a / 2, b / 2) + LowBit(a, b)
  {
  }

  /** The halves and the low bit of an exclusive or. */
  lemma XorBitsHalves(a: nat, b: nat)
    ensures XorBits(a, b) / 2 == XorBits(a / 2, b / 2) && XorBits(a, b) % 2 == LowBit(a, b)
  {
    XorBitsStep(a, b);
  }

  lemma {:induction false} XorBitsAssoc(a: nat, b: nat, c: nat)
    ensures XorBits(XorBits(a, b), c) == XorBits(a, XorBits(b, c))
    decreases a + b + c
  {
    if a != 0 || b != 0 || c != 0 {
      var ab, bc := XorBits(a, b), XorBits(b, c);
      XorBitsHalves(a, b);
      XorBitsHalves(b, c);
      XorBitsStep(ab, c);
      XorBitsStep(a, bc);
      XorBitsAssoc(a / 2, b / 2, c / 2);
      assert LowBit(ab, c) == LowBit(a, bc);
    }
  }

  lemma {:induction false} XorBitsComm(a: nat, b: nat)
    ensures XorBits(a, b) == XorBits(b, a)
  {
    if a != 0 || b != 0 {
      XorBitsComm(a / 2, b / 2);
    }
  }

  lemma {:induction false} XorBitsUnit(a: nat)
    ensures XorBits(a, 0) == a
  {
    if a != 0 {
      XorBitsUnit(a / 2);
    }
  }

  lemma {:induction false} XorBitsSelf(a: nat)
    ensures XorBits(a, a) == 0
  {
    if a != 0 {
      XorBitsSelf(a / 2);
    }
  }

  lemma XorAssoc(a: UInt32, b: UInt32, c: UInt32)
    ensures Xor(Xor(a, b), c) == Xor(a, Xor(b, c))
  {
    XorBitsAssoc(a, b, c);
  }

  lemma XorComm(a: UInt32, b: UInt32)
    ensures Xor(a, b) == Xor(b, a)
  {
    XorBitsComm(a, b);
  }

  lemma XorUnit(a: UInt32)
    ensures Xor(a, 0) == a
  {
    XorBitsUnit(a);
  }

  lemma XorSelf(a: UInt32)
    ensures Xor(a, a) == 0
  {
    XorBitsSelf(a);
  }

  /** Xor-ing the same value on the left is injective. */
  lemma XorLeftCancel(x: UInt32, t: UInt32, u: UInt32)
    requires Xor(x, t) == Xor(x, u)
    ensures t == u
  {
    XorAssoc(x, x, t);
    XorAssoc(x, x, u);
    XorSelf(x);
    XorComm(0, t);
    XorComm(0, u);
    XorUnit(t);
    XorUnit(u);
  }

  /** Two values whose exclusive or is zero are equal. */
  lemma XorZero(t: UInt32, u: UInt32)
    requires Xor(t, u) == 0
    ensures t == u
  {
    XorSelf(t);
    XorLeftCancel(t, u, t);
  }

  lemma XorCancel(x: UInt32, t: UInt32, u: UInt32)
    ensures Xor(x, u) == Xor(Xor(Xor(x, t), t), u)
  {
    XorAssoc(x, t, t);
    XorSelf(t);
    XorUnit(x);
  }

  lemma XorRotate(x: UInt32, p: UInt32, q: UInt32, t: UInt32)
    ensures Xor(Xor(Xor(x, p), q), t) == Xor(Xor(Xor(x, t), p), q)
  {
    XorAssoc(Xor(x, p), q, t);
    XorComm(q, t);
    XorAssoc(Xor(x, p), t, q);
    XorAssoc(x, p, t);
    XorComm(p, t);
    XorAssoc(x, t, p);
  }
}
