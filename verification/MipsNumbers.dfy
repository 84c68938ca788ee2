/**
 The arithmetic of 32-bit words: two's complement, the bits of a number, and shifts.
 */
module MipsNumbers {
  import opened Common
  import opened Division
  import opened MipsOps
  import opened Mips32
  import opened MipsInstructions

  // ---- two's complement ----

  lemma WrapCongruent(i: int)
    ensures Congruent(Wrap(i) as int, i)
  {
  }

  lemma SignedIs(w: Word, s: int)
    ensures IsSigned(w, s) <==> s == Signed(w)
  {
  }

  /** The number that 16 bits stand for. */
  function SignedHalf(imm: nat): int {
    if imm < 0x8000 then imm else imm - 0x1_0000
  }

  lemma SignedHalfIs(imm: nat, s: int)
    requires imm < 0x1_0000
    ensures IsSignedHalf(imm, s) <==> s == SignedHalf(imm)
  {
  }

  lemma SumIs(v: Word, x: Word, imm: nat)
    requires imm < 0x1_0000
    ensures IsSum(v, x, imm) <==> v == Wrap(x as int + SignedHalf(imm))
  {
    SignedHalfIs(imm, SignedHalf(imm));
    if v == Wrap(x as int + SignedHalf(imm)) {
      forall s | IsSignedHalf(imm, s)
        ensures Congruent(v as int, x as int + s)
      {
        SignedHalfIs(imm, s);
      }
    }
  }

  lemma FloorShifts(x: int, n: nat)
    ensures IsShifted(x, n, x / Pow2(n))
  {
    var p := Pow2(n);
    assert x == (x / p) * p + x % p;
    assert (x / p + 1) * p == (x / p) * p + p;
  }

  // ---- bits ----

  lemma LowestBit(x: nat)
    ensures Bit(x, 0) <==> x % 2 == 1
  {
  }

  lemma HigherBit(x: nat, i: nat)
    requires i > 0
    ensures Bit(x, i) <==> Bit(x / 2, i - 1)
  {
    HalveFirst(x, Pow2(i - 1));
  }

  lemma NoBits(i: nat)
    ensures !Bit(0, i)
  {
  }

  lemma LowestBits(r: nat, x: nat, y: nat)
    ensures (Bit(r, 0) <==> r % 2 == 1) && (Bit(x, 0) <==> x % 2 == 1) && (Bit(y, 0) <==> y % 2 == 1)
  {
    LowestBit(r);
    LowestBit(x);
    LowestBit(y);
  }

  lemma HigherBits(r: nat, x: nat, y: nat, i: nat)
    requires i > 0
    ensures Bit(r, i) <==> Bit(r / 2, i - 1)
    ensures Bit(x, i) <==> Bit(x / 2, i - 1)
    ensures Bit(y, i) <==> Bit(y / 2, i - 1)
  {
    HigherBit(r, i);
    HigherBit(x, i);
    HigherBit(y, i);
  }

  lemma {:induction false} AndBit(x: nat, y: nat, i: nat)
    ensures Bit(AndBits(x, y), i) <==> Bit(x, i) && Bit(y, i)
  {
    if x == 0 {
      NoBits(i);
    } else {
      var r := AndBits(x, y);
      LowestBits(r, x, y);
      if i > 0 {
        assert r / 2 == AndBits(x / 2, y / 2);
        HigherBits(r, x, y, i);
        AndBit(x / 2, y / 2, i - 1);
      }
    }
  }

  lemma {:induction false} OrBit(x: nat, y: nat, i: nat)
    ensures Bit(OrBits(x, y), i) <==> Bit(x, i) || Bit(y, i)
  {
    if x == 0 {
      NoBits(i);
    } else {
      var r := OrBits(x, y);
      LowestBits(r, x, y);
      if i > 0 {
        assert r / 2 == OrBits(x / 2, y / 2);
        HigherBits(r, x, y, i);
        OrBit(x / 2, y / 2, i - 1);
      }
    }
  }

  lemma {:induction false} XorBit(x: nat, y: nat, i: nat)
    ensures Bit(XorBits(x, y), i) <==> Bit(x, i) != Bit(y, i)
  {
    if x == 0 {
      NoBits(i);
    } else {
      var r := XorBits(x, y);
      LowestBits(r, x, y);
      if i > 0 {
        assert r / 2 == XorBits(x / 2, y / 2);
        HigherBits(r, x, y, i);
        XorBit(x / 2, y / 2, i - 1);
      }
    }
  }

  /** The results have no more bits than the operands. */
  lemma {:induction false} AndFits(x: nat, y: nat, n: nat)
    requires x < Pow2(n) && y < Pow2(n)
    ensures AndBits(x, y) < Pow2(n)
  {
    if x > 0 {
      var half := Pow2(n - 1);
      assert Pow2(n) == 2 * half;
      var b := (x % 2) * (y % 2);
      assert b == 0 || b == 1;
      AndFits(x / 2, y / 2, n - 1);
      assert AndBits(x, y) == b + 2 * AndBits(x / 2, y / 2);
      hide AndBits, Pow2;
    }
  }

  lemma {:induction false} OrFits(x: nat, y: nat, n: nat)
    requires x < Pow2(n) && y < Pow2(n)
    ensures OrBits(x, y) < Pow2(n)
  {
    if x > 0 {
      OrFits(x / 2, y / 2, n - 1);
    }
  }

  lemma {:induction false} XorFits(x: nat, y: nat, n: nat)
    requires x < Pow2(n) && y < Pow2(n)
    ensures XorBits(x, y) < Pow2(n)
  {
    if x > 0 {
      XorFits(x / 2, y / 2, n - 1);
    }
  }

  /** The complement of a number has the other bits. */
  lemma {:induction false} ComplementBit(x: nat, n: nat, i: nat)
    requires x < Pow2(n) && i < n
    ensures Bit(Pow2(n) - 1 - x, i) <==> !Bit(x, i)
  {
    var c := Pow2(n) - 1 - x;
    LowestBits(c, x, x);
    if i > 0 {
      assert c / 2 == Pow2(n - 1) - 1 - x / 2;
      HigherBits(c, x, x, i);
      ComplementBit(x / 2, n - 1, i - 1);
    }
  }

  lemma Pow2Of32()
    ensures Pow2(32) == 0x1_0000_0000
  {
    assert Pow2(8) == 0x100;
    assert Pow2(16) == 0x1_0000;
    assert Pow2(24) == 0x100_0000;
  }

  /** The operations on words, bit by bit. */
  lemma WordBits(x: Word, y: Word, i: nat)
    requires i < 32
    ensures BitOf(And(x, y), i) <==> BitOf(x, i) && BitOf(y, i)
    ensures BitOf(Or(x, y), i) <==> BitOf(x, i) || BitOf(y, i)
    ensures BitOf(Xor(x, y), i) <==> BitOf(x, i) != BitOf(y, i)
    ensures BitOf(0xFFFF_FFFF - Or(x, y), i) <==> !BitOf(x, i) && !BitOf(y, i)
  {
    hide AndBits, OrBits, XorBits, Bit, Pow2;
    Pow2Of32();
    AndFits(x as nat, y as nat, 32);
    OrFits(x as nat, y as nat, 32);
    XorFits(x as nat, y as nat, 32);
    AndBit(x as nat, y as nat, i);
    OrBit(x as nat, y as nat, i);
    XorBit(x as nat, y as nat, i);
    ComplementBit(OrBits(x as nat, y as nat), 32, i);
  }

  // ---- shifts ----

  lemma ShiftsAre(y: Word, n: Word)
    ensures
      var k: nat := (n % 32) as nat;
      && Congruent(ShiftLeft(y, n) as int, y as int * Pow2(k))
      && IsShifted(y as int, k, ShiftRight(y, n) as int)
      && IsShifted(Signed(y), k, Signed(ShiftRightSigned(y, n)))
  {
    hide Pow2, IsShifted;
    var k: nat := (n % 32) as nat;
    WrapCongruent(y as int * Pow2(k));
    FloorShifts(y as int, k);
    ShiftShrinks(y as int, Pow2(k));
    FloorShifts(Signed(y), k);
    ShiftShrinks(Signed(y), Pow2(k));
    SignedWraps(Signed(y) / Pow2(k));
  }

  lemma SignedWraps(i: int)
    requires -0x8000_0000 <= i < 0x8000_0000
    ensures Signed(Wrap(i)) == i
  {
  }

  lemma ShiftShrinks(x: int, p: nat)
    requires p > 0
    ensures if x >= 0 then 0 <= x / p <= x else x <= x / p < 0
  {
    var q := x / p;
    assert x == q * p + x % p;
    assert q * p == q * (p - 1) + q;
    SameSign(q, p - 1);
    SameSign(q, p);
    SameSign(q + 1, p);
    assert (q + 1) * p == q * p + p;
  }
}
