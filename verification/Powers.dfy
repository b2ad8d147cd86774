/** Powers of two, the split point of a tree and the bits of an index. */
module Powers {

  /** Number of values of a 64-bit word. */
  const WORD: nat := 0x1_0000_0000_0000_0000

  function Pow2(h: nat): (p: nat)
    ensures 1 <= p
  {
    if h == 0 then 1 else 2 * Pow2(h - 1)
  }

  lemma {:induction false} Pow2Increasing(a: nat, b: nat)
    requires a < b
    ensures 2 * Pow2(a) <= Pow2(b)
  {
    if a + 1 < b {
      Pow2Increasing(a, b - 1);
    }
  }

  lemma {:induction false} Pow2Word()
    ensures Pow2(63) == WORD / 2 && Pow2(64) == WORD
  {
    assert Pow2(8) == 0x100;
    assert Pow2(16) == 0x1_0000;
    assert Pow2(24) == 0x100_0000;
    assert Pow2(32) == 0x1_0000_0000;
    assert Pow2(40) == 0x100_0000_0000;
    assert Pow2(48) == 0x1_0000_0000_0000;
    assert Pow2(56) == 0x100_0000_0000_0000;
  }

  lemma Pow2InWord(i: nat)
    ensures Pow2(i) <= WORD / 2 <==> i < 64
  {
    Pow2Word();
    if i < 63 {
      Pow2Increasing(i, 63);
    } else if 63 < i {
      Pow2Increasing(63, i);
    }
  }

  // ---- bit length and logarithms ----

  function BitLength(m: nat): nat {
    if m == 0 then 0 else 1 + BitLength(m / 2)
  }

  lemma {:induction false} BitLengthBounds(m: nat)
    ensures m < Pow2(BitLength(m))
    ensures 0 < m ==> 0 < BitLength(m) && Pow2(BitLength(m) - 1) <= m
  {
    if m != 0 {
      BitLengthBounds(m / 2);
    }
  }

  function FloorLog2(n: nat): nat
    requires 1 <= n
  {
    BitLength(n) - 1
  }

  lemma FloorLog2Bounds(n: nat)
    requires 1 <= n
    ensures Pow2(FloorLog2(n)) <= n < 2 * Pow2(FloorLog2(n))
  {
    BitLengthBounds(n);
  }

  lemma FloorLog2Unique(n: nat, e: nat)
    requires 1 <= n && Pow2(e) <= n < 2 * Pow2(e)
    ensures FloorLog2(n) == e
  {
    FloorLog2Bounds(n);
    var f := FloorLog2(n);
    if e < f {
      Pow2Increasing(e, f);
    } else if f < e {
      Pow2Increasing(f, e);
    }
  }

  function CeilLog2(n: int): nat {
    if n <= 1 then 0 else BitLength(n - 1)
  }

  /** The result is the least exponent whose power of two reaches n. */
  lemma CeilLog2Least(n: int, h: nat)
    ensures n <= Pow2(CeilLog2(n))
    ensures n <= Pow2(h) <==> CeilLog2(n) <= h
  {
    if 1 < n {
      BitLengthBounds(n - 1);
      var c := CeilLog2(n);
      if h < c - 1 {
        Pow2Increasing(h, c - 1);
      } else if c < h {
        Pow2Increasing(c, h);
      }
    }
  }

  method ComputeCeilLog2(n: int) returns (k: nat)
    ensures n <= Pow2(k)
    ensures forall h: nat :: n <= Pow2(h) ==> k <= h
    ensures k == CeilLog2(n)
  {
    if n <= 1 {
      return 0;
    }
    k := 0;
    var m: nat := n - 1;
    while m > 0
      invariant k + BitLength(m) == BitLength(n - 1)
    {
      m := m / 2;
      k := k + 1;
    }
    forall h: nat ensures n <= Pow2(k) && (n <= Pow2(h) ==> k <= h) {
      CeilLog2Least(n, h);
    }
  }

  // ---- the split point ----

  function SplitExp(n: nat): nat
    requires 2 <= n
  {
    if n == 2 then 0 else 1 + SplitExp((n + 1) / 2)
  }

  lemma {:induction false} SplitBounds(n: nat)
    requires 2 <= n
    ensures Pow2(SplitExp(n)) < n <= 2 * Pow2(SplitExp(n))
  {
    if n != 2 {
      SplitBounds((n + 1) / 2);
    }
  }

  /** The largest power of two below n; 0 when there is none. */
  function SplitPoint(n: nat): (k: nat)
    ensures 2 <= n ==> 0 < k < n <= 2 * k && exists e :: k == Pow2(e)
    ensures n < 2 ==> k == 0
  {
    if n < 2 then 0 else
    SplitBounds(n);
    Pow2(SplitExp(n))
  }

  /** Section 2.1 of RFC 6962 fixes k by k < n <= 2k among the powers of two: only the split point does. */
  lemma SplitPointUnique(n: nat, e: nat)
    requires 2 <= n
    ensures Pow2(e) < n <= 2 * Pow2(e) <==> SplitPoint(n) == Pow2(e)
  {
    var f := SplitExp(n);
    if Pow2(e) < n <= 2 * Pow2(e) {
      if e < f {
        Pow2Increasing(e, f);
      } else if f < e {
        Pow2Increasing(f, e);
      }
    }
  }

  lemma SplitOfPow2(h: nat)
    requires 1 <= h
    ensures SplitPoint(Pow2(h)) == Pow2(h - 1)
  {
    SplitPointUnique(Pow2(h), h - 1);
  }

  /** Away from the powers of two the split point is the leading binary digit. */
  lemma SplitIsLeadingBit(n: nat)
    requires 2 <= n && n != Pow2(FloorLog2(n))
    ensures SplitPoint(n) == Pow2(FloorLog2(n))
  {
    FloorLog2Bounds(n);
    SplitPointUnique(n, FloorLog2(n));
  }

  /** The shift loop on 64-bit words. */
  method LargestPow2LessThan(n: nat) returns (r: nat)
    requires n <= WORD / 2
    ensures r == SplitPoint(n)
  {
    var k: nat := 1;
    ghost var e: nat := 0;
    while k < n
      invariant k == Pow2(e) && k <= WORD / 2
      invariant 0 < e ==> Pow2(e - 1) < n
      decreases n - k
    {
      Pow2InWord(e);
      Pow2InWord(e + 1);
      if e == 63 {
        Pow2Word();
        assert false;
      }
      k := k * 2 % WORD;
      e := e + 1;
    }
    r := k / 2;
    if 2 <= n {
      SplitPointUnique(n, e - 1);
    }
  }

  /** The loop variable after i shifts of a 64-bit word. */
  function Shifted(i: nat): nat {
    if i == 0 then 1 else 2 * Shifted(i - 1) % WORD
  }

  lemma DoubledInWord(p: nat)
    ensures 2 * p < WORD ==> 2 * p % WORD == 2 * p
    ensures 2 * p == WORD || p == 0 ==> 2 * p % WORD == 0
  {
  }

  lemma {:induction false} ShiftedValue(i: nat)
    ensures Shifted(i) == if i < 64 then Pow2(i) else 0
  {
    if i != 0 {
      ShiftedValue(i - 1);
      assert i < 64 ==> Pow2(i) < WORD by { Pow2InWord(i); }
      assert i == 64 ==> Pow2(i) == WORD by { Pow2Word(); }
      DoubledInWord(Shifted(i - 1));
    }
  }

  /** The loop leaves its guard for exactly the sizes up to 2^63; above them every bit is shifted out first. */
  lemma ShiftLoopExits(n: nat)
    ensures (exists i: nat :: n <= Shifted(i)) <==> n <= WORD / 2
  {
    if n <= WORD / 2 {
      Pow2Word();
      ShiftedValue(63);
      assert n <= Shifted(63);
    } else {
      forall i: nat ensures Shifted(i) < n {
        ShiftedValue(i);
        Pow2InWord(i);
      }
    }
  }

  // ---- repeated halving ----

  /** x after i integer halvings. */
  function Halved(x: nat, i: nat): nat {
    if i == 0 then x else Halved(x, i - 1) / 2
  }

  lemma {:induction false} HalvedFront(x: nat, i: nat)
    ensures Halved(x, i + 1) == Halved(x / 2, i)
  {
    if i != 0 {
      HalvedFront(x, i - 1);
    }
  }

  lemma {:induction false} HalvedSmall(x: nat, i: nat)
    requires x < Pow2(i)
    ensures Halved(x, i) == 0
  {
    if i != 0 {
      HalvedFront(x, i - 1);
      HalvedSmall(x / 2, i - 1);
    }
  }

  /** Adding 2^e does not disturb the bits below e. */
  lemma {:induction false} HalvedOffset(y: nat, e: nat, i: nat)
    requires i <= e
    ensures Halved(Pow2(e) + y, i) == Halved(y, i) + Pow2(e - i)
  {
    if i != 0 {
      HalvedOffset(y, e, i - 1);
    }
  }

  /** The number written by the h lowest bits. */
  function LowBits(x: nat, h: nat): nat {
    if h == 0 then 0
    else LowBits(x, h - 1) + if Halved(x, h - 1) % 2 == 1 then Pow2(h - 1) else 0
  }

  lemma DoubleMultiple(q: nat, b: nat, p: nat)
    ensures (2 * q + b) * p == q * (2 * p) + b * p
  {
  }

  lemma {:induction false} LowBitsSplit(x: nat, h: nat)
    ensures x == Halved(x, h) * Pow2(h) + LowBits(x, h)
    ensures LowBits(x, h) < Pow2(h)
  {
    if h != 0 {
      LowBitsSplit(x, h - 1);
      var b := Halved(x, h - 1) % 2;
      DoubleMultiple(Halved(x, h), b, Pow2(h - 1));
      assert Halved(x, h - 1) == 2 * Halved(x, h) + b;
      assert b * Pow2(h - 1) == if b == 1 then Pow2(h - 1) else 0;
    }
  }

  lemma MultipleGrows(c: int, p: int)
    requires 1 <= c && 0 < p
    ensures p <= c * p
  {
    assert c * p == (c - 1) * p + p;
  }

  lemma SmallMultiple(c: int, p: int)
    requires -p < c * p < p
    ensures c == 0
  {
    if c >= 1 {
      MultipleGrows(c, p);
      assert false;
    } else if c <= -1 {
      MultipleGrows(-c, p);
      assert false;
    }
  }

  lemma ModuloUnique(q: nat, p: nat, r: nat)
    requires r < p
    ensures (q * p + r) % p == r
  {
    var x := q * p + r;
    var d, m := x / p, x % p;
    assert x == d * p + m;
    assert (d - q) * p == r - m;
    SmallMultiple(d - q, p);
  }

  lemma LowBitsModulo(x: nat, h: nat)
    ensures LowBits(x, h) == x % Pow2(h)
  {
    LowBitsSplit(x, h);
    ModuloUnique(Halved(x, h), Pow2(h), LowBits(x, h));
  }
}
