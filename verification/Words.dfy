/** Unbounded non-negative integers as bit strings and as byte strings, lowest first. */
module Words {
  import opened Bits

  predicate Bit(x: nat, i: nat) { if i == 0 then x % 2 == 1 else Bit(x / 2, i - 1) }

  function Or(x: nat, y: nat): nat {
    if x == 0 then y else if y == 0 then x
    else (if x % 2 == 1 || y % 2 == 1 then 1 else 0) + 2 * Or(x / 2, y / 2)
  }

  /** x & ~y */
  function AndNot(x: nat, y: nat): nat {
    if x == 0 then 0 else (if x % 2 == 1 && y % 2 == 0 then 1 else 0) + 2 * AndNot(x / 2, y / 2)
  }

  function Shl(x: nat, n: nat): nat { if n == 0 then x else 2 * Shl(x, n - 1) }

  function FromBytes(data: seq<nat>): nat {
    if data == [] then 0 else data[0] + 256 * FromBytes(data[1..])
  }

  /** Byte number i. */
  function ByteAt(x: nat, i: nat): (b: nat)
    ensures b < 256
  {
    if i == 0 then x % 256 else ByteAt(x / 256, i - 1)
  }

  lemma {:induction false} BitZero(i: nat)
    ensures !Bit(0, i)
  {
    if i > 0 {
      BitZero(i - 1);
    }
  }

  lemma {:induction false} BitOr(x: nat, y: nat, i: nat)
    ensures Bit(Or(x, y), i) <==> Bit(x, i) || Bit(y, i)
    decreases i
  {
    BitZero(i);
    if x != 0 && y != 0 && i > 0 {
      BitOr(x / 2, y / 2, i - 1);
    }
  }

  lemma {:induction false} BitAndNot(x: nat, y: nat, i: nat)
    ensures Bit(AndNot(x, y), i) <==> Bit(x, i) && !Bit(y, i)
    decreases i
  {
    BitZero(i);
    if x != 0 && i > 0 {
      BitAndNot(x / 2, y / 2, i - 1);
    }
  }

  lemma {:induction false} BitShl(x: nat, n: nat, i: nat)
    ensures Bit(Shl(x, n), i) <==> i >= n && Bit(x, i - n)
    decreases n
  {
    if n > 0 {
      if i > 0 {
        BitShl(x, n - 1, i - 1);
      }
    }
  }

  /** (1 << n) - 1 */
  lemma {:induction false} BitOnes(n: nat, i: nat)
    ensures Bit(Pow2(n) - 1, i) <==> i < n
    decreases n
  {
    if n == 0 {
      BitZero(i);
    } else {
      assert (Pow2(n) - 1) / 2 == Pow2(n - 1) - 1 && (Pow2(n) - 1) % 2 == 1;
      if i > 0 {
        BitOnes(n - 1, i - 1);
      }
    }
  }

  // ---- Bytes and their bits ----

  /** Dropping eight bits. */
  lemma {:induction false} BitSkipByte(x: nat, i: nat)
    ensures Bit(x, i + 8) <==> Bit(x / 256, i)
  {
    assert Bit(x, i + 8) == Bit(x / 2, i + 7) == Bit(x / 2 / 2, i + 6) == Bit(x / 2 / 2 / 2, i + 5);
    assert Bit(x / 2 / 2 / 2, i + 5) == Bit(x / 2 / 2 / 2 / 2, i + 4) == Bit(x / 2 / 2 / 2 / 2 / 2, i + 3);
    assert Bit(x / 2 / 2 / 2 / 2 / 2, i + 3) == Bit(x / 2 / 2 / 2 / 2 / 2 / 2, i + 2);
    assert Bit(x / 2 / 2 / 2 / 2 / 2 / 2, i + 2) == Bit(x / 2 / 2 / 2 / 2 / 2 / 2 / 2, i + 1);
    assert Bit(x / 2 / 2 / 2 / 2 / 2 / 2 / 2, i + 1) == Bit(x / 2 / 2 / 2 / 2 / 2 / 2 / 2 / 2, i);
    assert x / 2 / 2 / 2 / 2 / 2 / 2 / 2 / 2 == x / 256;
  }

  /** The value of the n lowest bits. */
  function Low(x: nat, n: nat): nat { if n == 0 then 0 else x % 2 + 2 * Low(x / 2, n - 1) }

  lemma {:induction false} LowSmall(x: nat, n: nat)
    requires x < Pow2(n)
    ensures Low(x, n) == x
  {
    if n > 0 {
      LowSmall(x / 2, n - 1);
    }
  }

  lemma {:induction false} LowByBits(x: nat, y: nat, n: nat)
    requires forall b :: 0 <= b < n ==> (Bit(x, b) <==> Bit(y, b))
    ensures Low(x, n) == Low(y, n)
  {
    if n > 0 {
      assert Bit(x, 0) <==> Bit(y, 0);
      forall b | 0 <= b < n - 1 ensures Bit(x / 2, b) <==> Bit(y / 2, b) {
        assert Bit(x, b + 1) <==> Bit(y, b + 1);
      }
      LowByBits(x / 2, y / 2, n - 1);
    }
  }

  /** Byte j of the little-endian value of a byte string. */
  lemma {:induction false} FromBytesAt(data: seq<nat>, j: nat)
    requires forall i :: 0 <= i < |data| ==> data[i] < 256
    ensures ByteAt(FromBytes(data), j) == if j < |data| then data[j] else 0
    decreases |data|, j
  {
    if data == [] {
      ByteOfZero(j);
    } else {
      assert FromBytes(data) / 256 == FromBytes(data[1..]) && FromBytes(data) % 256 == data[0];
      if j > 0 {
        FromBytesAt(data[1..], j - 1);
      }
    }
  }

  lemma {:induction false} ByteOfZero(j: nat)
    ensures ByteAt(0, j) == 0
  {
    if j > 0 {
      ByteOfZero(j - 1);
    }
  }

  /** The bits of a byte of x are bits of x. */
  lemma {:induction false} BitOfByte(x: nat, i: nat, b: nat)
    requires b < 8
    ensures Bit(ByteAt(x, i), b) <==> Bit(x, 8 * i + b)
  {
    if i > 0 {
      BitOfByte(x / 256, i - 1, b);
      BitSkipByte(x, 8 * (i - 1) + b);
    } else {
      BitOfMod(x, 8, b);
      Pow2Of8();
    }
  }

  lemma {:induction false} BitOfMod(x: nat, n: nat, b: nat)
    requires b < n
    ensures Bit(x % Pow2(n), b) <==> Bit(x, b)
  {
    HalfMod(x, Pow2(n - 1));
    var m := x % Pow2(n);
    assert m % 2 == x % 2 && m / 2 == (x / 2) % Pow2(n - 1);
    if b > 0 {
      BitOfMod(x / 2, n - 1, b - 1);
    }
  }

  /** Bit b of byte i. */
  predicate BitIn(x: nat, i: nat, b: nat) { Bit(x, 8 * i + b) }

  lemma {:induction false} SameBits(c: nat, d: nat, n: nat)
    requires c < Pow2(n) && d < Pow2(n) && forall b :: 0 <= b < n ==> (Bit(c, b) <==> Bit(d, b))
    ensures c == d
  {
    LowByBits(c, d, n);
    LowSmall(c, n);
    LowSmall(d, n);
  }

  lemma {:induction false} Pow2Of8()
    ensures Pow2(8) == 256
  {
    assert Pow2(4) == 16;
  }

  /** Two words agree in a byte when they agree in its eight bits. */
  lemma {:induction false} ByteByBits(x: nat, i: nat, y: nat, j: nat)
    requires forall b :: 0 <= b < 8 ==> (BitIn(x, i, b) <==> BitIn(y, j, b))
    ensures ByteAt(x, i) == ByteAt(y, j)
  {
    var c, d, n := ByteAt(x, i), ByteAt(y, j), 8;
    forall b | 0 <= b < n ensures Bit(c, b) <==> Bit(d, b) {
      BitOfByte(x, i, b);
      BitOfByte(y, j, b);
      assert BitIn(x, i, b) <==> BitIn(y, j, b);
    }
    Pow2Of8();
    SameBits(c, d, n);
  }

  // ---- Rounding down ----

  ghost predicate PowerOf2(w: nat) { exists k: nat :: w == Pow2(k) }

  /** x & ~(2^k - 1) */
  lemma {:induction false} AndNotOnes(x: nat, k: nat)
    ensures AndNot(x, Pow2(k) - 1) == x - x % Pow2(k)
  {
    if k == 0 {
      AndNotZero(x);
    } else {
      AndNotOnes(x / 2, k - 1);
      OneMoreOne(x, Pow2(k - 1), Pow2(k));
    }
  }

  lemma {:induction false} OneMoreOne(x: nat, p: nat, d: nat)
    requires p > 0 && d == 2 * p && AndNot(x / 2, p - 1) == x / 2 - (x / 2) % p
    ensures AndNot(x, d - 1) == x - x % d
  {
    assert (d - 1) / 2 == p - 1 && (d - 1) % 2 == 1;
    assert AndNot(x, d - 1) == 2 * AndNot(x / 2, p - 1);
    HalfMod(x, p);
  }

  lemma {:induction false} AndNotZero(x: nat)
    ensures AndNot(x, 0) == x
  {
    if x > 0 {
      AndNotZero(x / 2);
    }
  }
}
