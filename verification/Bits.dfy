/** Bitwise operators of the kernel's unsigned words, on natural numbers.
    They are defined one bit at a time, and the lemmas turn the masks and shifts that
    occur in the source into quotients and remainders. */
module Bits {
  const WORD32: nat := 0x1_0000_0000
  const WORD64: nat := 0x1_0000_0000_0000_0000

  function And(a: nat, b: nat): nat {
    if a == 0 || b == 0 then 0
    else 2 * And(a / 2, b / 2) + (if a % 2 == 1 && b % 2 == 1 then 1 else 0)
  }

  function Or(a: nat, b: nat): nat {
    if a == 0 then b
    else if b == 0 then a
    else 2 * Or(a / 2, b / 2) + (if a % 2 == 1 || b % 2 == 1 then 1 else 0)
  }

  function Shl(a: nat, k: nat): nat {
    if k == 0 then a else 2 * Shl(a, k - 1)
  }

  function Shr(a: nat, k: nat): nat
    decreases k
  {
    if k == 0 then a else Shr(a / 2, k - 1)
  }

  /** Masking with k ones keeps exactly what shifting down by k drops. */
  lemma {:induction false} AndLowMask(a: nat, k: nat)
    ensures 0 < Shl(1, k)
    ensures And(a, Shl(1, k) - 1) == a - Shl(Shr(a, k), k) < Shl(1, k)
    decreases k
  {
    if k == 0 {
      assert And(a, 0) == 0;
    } else {
      AndLowMask(a / 2, k - 1);
      AndHalves(a, Shl(1, k) - 1);
    }
  }

  /** A mask whose low k bits are clear only looks at the bits from k upward. */
  lemma {:induction false} AndHighMask(a: nat, m: nat, k: nat)
    ensures And(a, Shl(m, k)) == Shl(And(Shr(a, k), m), k)
    decreases k
  {
    if k != 0 {
      AndHighMask(a / 2, m, k - 1);
      AndHalves(a, Shl(m, k));
    }
  }

  /** The low k bits and the bits above them can be or-ed separately. */
  lemma {:induction false} OrByParts(a: nat, b: nat, c: nat, d: nat, k: nat)
    requires b < Shl(1, k) && d < Shl(1, k)
    ensures Or(Shl(a, k) + b, Shl(c, k) + d) == Shl(Or(a, c), k) + Or(b, d)
    decreases k
  {
    if k != 0 {
      OrByParts(a, b / 2, c, d / 2, k - 1);
      HalfOfParts(a, b, k);
      HalfOfParts(c, d, k);
      OrHalves(Shl(a, k) + b, Shl(c, k) + d);
      OrHalves(b, d);
    }
  }

  lemma HalfOfParts(a: nat, b: nat, k: nat)
    requires 0 < k
    ensures (Shl(a, k) + b) / 2 == Shl(a, k - 1) + b / 2 && (Shl(a, k) + b) % 2 == b % 2
  {
  }

  lemma OrOdd(x: nat, y: nat)
    requires y % 2 == 1
    ensures Or(x, y) % 2 == 1
  {
    OrHalves(x, y);
  }

  lemma AndHalves(x: nat, y: nat)
    ensures And(x, y) == 2 * And(x / 2, y / 2) + (if x % 2 == 1 && y % 2 == 1 then 1 else 0)
  {
  }

  lemma OrHalves(x: nat, y: nat)
    ensures Or(x, y) == 2 * Or(x / 2, y / 2) + (if x % 2 == 1 || y % 2 == 1 then 1 else 0)
  {
  }

  lemma {:induction false} ShiftAdds(a: nat, m: nat, n: nat)
    ensures Shl(a, m + n) == Shl(Shl(a, m), n)
    ensures Shr(a, m + n) == Shr(Shr(a, m), n)
    decreases m + n
  {
    if n != 0 {
      ShiftAdds(a, m, n - 1);
    }
    if m != 0 {
      ShiftAdds(a / 2, m - 1, n);
    }
  }

  /** The shift amounts used by the page-table code. */
  lemma ShiftValues(a: nat)
    ensures Shl(a, 9) == 512 * a && Shr(a, 9) == a / 512
    ensures Shl(a, 12) == 4096 * a && Shr(a, 12) == a / 4096
  {
    Shift3(a);
    Shift3(Shl(a, 3));
    Shift3(Shl(Shl(a, 3), 3));
    Shift3(Shr(a, 3));
    Shift3(Shr(Shr(a, 3), 3));
    ShiftAdds(a, 3, 3);
    ShiftAdds(a, 6, 3);
    ShiftAdds(a, 9, 3);
    Shift3(Shl(a, 9));
    Shift3(Shr(a, 9));
  }

  lemma Shift3(a: nat)
    ensures Shl(a, 3) == 8 * a && Shr(a, 3) == a / 8
  {
    assert Shl(a, 1) == 2 * a && Shr(a, 1) == a / 2;
    assert Shl(a, 2) == 4 * a && Shr(a, 2) == Shr(a / 2, 1);
    assert Shr(a, 3) == Shr(a / 2, 2) == Shr(a / 2 / 2, 1);
  }

  /** The address field of an aligned address or-ed with flags: bits 0-11 and 52-63 are the
      flags', bits 12-51 the address's, and nothing is carried from one to the other. */
  lemma OrAlignedFlags(page: nat, low: nat, high: nat)
    requires low < 4096 && page < 0x100_0000_0000
    ensures Or(4096 * page, 0x10_0000_0000_0000 * high + low)
         == 4096 * page + 0x10_0000_0000_0000 * high + low
  {
    var top := 0x100_0000_0000 * high;
    OrDisjoint40(page, high);
    OrDisjoint12(page, top, low);
  }

  lemma OrDisjoint12(x: nat, y: nat, low: nat)
    requires low < 4096
    ensures Or(4096 * x, 4096 * y + low) == 4096 * Or(x, y) + low
  {
    ShiftValues(1);
    ShiftValues(x);
    ShiftValues(y);
    ShiftValues(Or(x, y));
    OrByParts(x, 0, y, low, 12);
  }

  lemma OrDisjoint40(x: nat, high: nat)
    requires x < 0x100_0000_0000
    ensures Or(x, 0x100_0000_0000 * high) == 0x100_0000_0000 * high + x
  {
    Shift40(1);
    Shift40(high);
    ShlZero(40);
    OrByParts(0, x, high, 0, 40);
    assert Or(0, high) == high && Or(x, 0) == x;
  }

  lemma {:induction false} ShlZero(k: nat)
    ensures Shl(0, k) == 0
  {
    if k != 0 {
      ShlZero(k - 1);
    }
  }

  lemma Shift40(a: nat)
    ensures Shl(a, 40) == 0x100_0000_0000 * a
  {
    ShiftValues(a);
    ShiftValues(Shl(a, 12));
    ShiftValues(Shl(a, 24));
    ShiftAdds(a, 12, 12);
    ShiftAdds(a, 24, 12);
    ShiftAdds(a, 36, 3);
    Shift3(Shl(a, 36));
    assert Shl(a, 40) == 2 * Shl(a, 39);
  }
}
