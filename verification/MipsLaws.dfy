/**
 What the instruction set owes: products and quotients, and stores and loads of words, halves and bytes
 against the bytes of the memory.
 */
module MipsLaws {
  import opened MipsOps
  import opened Mips32
  import I = MipsInstructions
  import opened MipsNumbers

  // ---- multiplication and division ----

  /** HI and LO hold the signed product. */
  lemma MultIsProduct(op: Op, hi: Word, lo: Word)
    requires op.subop == SUBOP_MULT
    ensures
      var r := ExecuteSpecial(op, hi, lo);
      Signed(r.hi) * WORD_SIZE + r.lo as int == Signed(op.value1) * Signed(op.value2)
  {
    var x, y := Signed(op.value1), Signed(op.value2);
    ProductFits(x, y);
    SplitProduct(x * y);
  }

  lemma ProductFits(x: int, y: int)
    requires -0x8000_0000 <= x < 0x8000_0000 && -0x8000_0000 <= y < 0x8000_0000
    ensures -0x4000_0000_0000_0000 <= x * y <= 0x4000_0000_0000_0000
  {
    var a, b := if x < 0 then -x else x, if y < 0 then -y else y;
    TimesGrows(a, b, 0x8000_0000);
    TimesGrows(0x8000_0000, b, 0x8000_0000);
    assert x * y == a * b || x * y == -(a * b);
  }

  lemma TimesGrows(a: nat, b: nat, c: nat)
    requires a <= c && b <= c
    ensures 0 <= a * b <= c * b <= c * c
  {
    assert (c - a) * b >= 0 && c * (c - b) >= 0;
  }

  lemma SplitProduct(p: int)
    requires -0x4000_0000_0000_0000 <= p <= 0x4000_0000_0000_0000
    ensures Signed(Wrap(p / WORD_SIZE)) * WORD_SIZE + Wrap(p) as int == p
  {
    SignedWraps(p / WORD_SIZE);
  }

  lemma SplitUnsigned(p: int)
    requires 0 <= p < WORD_SIZE * WORD_SIZE
    ensures Wrap(p / WORD_SIZE) as int * WORD_SIZE + Wrap(p) as int == p
  {
  }

  lemma MultuIsProduct(op: Op, hi: Word, lo: Word)
    requires op.subop == SUBOP_MULTU
    ensures
      var r := ExecuteSpecial(op, hi, lo);
      r.hi as int * WORD_SIZE + r.lo as int == op.value1 as int * op.value2 as int
  {
    var x, y := op.value1 as int, op.value2 as int;
    TimesGrows(x, y, 0xFFFF_FFFF);
    SplitUnsigned(x * y);
  }

  /** LO holds the quotient and HI the remainder, but for the least integer divided by -1: its quotient
      does not fit. */
  lemma DivIsQuotient(op: Op, hi: Word, lo: Word)
    requires op.subop == SUBOP_DIV && op.value2 != 0
    ensures
      var r := ExecuteSpecial(op, hi, lo);
      var fits := !(op.value1 == 0x8000_0000 && op.value2 == 0xFFFF_FFFF);
      I.Divides(Signed(op.value1), Signed(op.value2), Signed(r.lo), Signed(r.hi)) <==> fits
  {
    var x, y := Signed(op.value1), Signed(op.value2);
    if !(x == -0x8000_0000 && y == -1) {
      QuotientTruncates(x, y);
      var q := Quotient(x, y);
      QuotientFits(x, y);
      SignedWraps(q);
      SignedWraps(x - q * y);
    }
  }

  lemma QuotientTruncates(x: int, y: int)
    requires y != 0
    ensures
      var rem := x - Quotient(x, y) * y;
      && (if rem < 0 then -rem else rem) < (if y < 0 then -y else y)
      && (x >= 0 ==> rem >= 0) && (x <= 0 ==> rem <= 0)
  {
    var a := if x < 0 then -x else x;
    assert a == (a / y) * y + a % y;
    assert x < 0 ==> Quotient(x, y) * y == -((a / y) * y);
  }

  lemma SmallFactor(c: nat, b: nat, a: nat)
    requires c * b <= a && b >= 2
    ensures 2 * c <= a
  {
    assert c * (b - 2) >= 0;
    assert c * b == c * (b - 2) + c * 2;
  }

  lemma QuotientFits(x: int, y: int)
    requires y != 0 && -0x8000_0000 <= x < 0x8000_0000 && !(x == -0x8000_0000 && y == -1)
    ensures -0x8000_0000 <= Quotient(x, y) < 0x8000_0000
  {
    var q := Quotient(x, y);
    QuotientTruncates(x, y);
    if y == 1 {
      assert q * y == q;
    } else if y == -1 {
      assert q * y == -q;
    } else {
      var a, b, c := if x < 0 then -x else x, if y < 0 then -y else y, if q < 0 then -q else q;
      ProductSize(q, y, x - q * y, x);
      SmallFactor(c, b, a);
    }
  }

  /** A product is no larger than a sum in which the rest has the sign of the sum. */
  lemma ProductSize(q: int, y: int, rem: int, x: int)
    requires x == q * y + rem && (x >= 0 ==> rem >= 0) && (x <= 0 ==> rem <= 0)
    requires (if rem < 0 then -rem else rem) < (if y < 0 then -y else y)
    ensures (if q < 0 then -q else q) * (if y < 0 then -y else y) <= (if x < 0 then -x else x)
  {
    var b, c := if y < 0 then -y else y, if q < 0 then -q else q;
    SizeOfProduct(q, y);
    if c > 0 {
      TimesOnce(c, b);
    } else {
      assert q == 0;
    }
  }

  lemma TimesOnce(c: nat, b: nat)
    requires c > 0
    ensures c * b >= b
  {
    assert c * b == (c - 1) * b + b && (c - 1) * b >= 0;
  }

  lemma SizeOfProduct(q: int, y: int)
    ensures
      (if q < 0 then -q else q) * (if y < 0 then -y else y) == if q * y < 0 then -(q * y) else q * y
  {
    if q < 0 && y < 0 {
      assert (-q) * (-y) == q * y;
    } else if q < 0 {
      assert (-q) * y == -(q * y);
    } else if y < 0 {
      assert q * (-y) == -(q * y);
    }
  }

  lemma DivuIsQuotient(op: Op, hi: Word, lo: Word)
    requires op.subop == SUBOP_DIVU && op.value2 != 0
    ensures
      var r := ExecuteSpecial(op, hi, lo);
      op.value1 as int == r.lo as int * op.value2 as int + r.hi as int && r.hi < op.value2
  {
  }

  // ---- memory ----

  lemma BytesOfWord(w: int)
    requires 0 <= w < 0x1_0000_0000
    ensures w % 0x100 + 0x100 * ((w / 0x100) % 0x100)
              + 0x1_0000 * ((w / 0x1_0000) % 0x100) + 0x100_0000 * (w / 0x100_0000) == w
  {
    var a, b := w / 0x100, w / 0x1_0000;
    assert w == 0x100 * a + w % 0x100;
    assert a == 0x100 * b + a % 0x100;
    assert b == 0x100 * (w / 0x100_0000) + b % 0x100;
  }

  lemma WrappedIsSame(a: int)
    requires 0 <= a < 0x1_0000_0000
    ensures Wrap(a) as int == a
  {
  }

  /** The bytes of a word, the lowest first. */
  ghost predicate IsBytes(w: int, b: seq<int>) {
    && |b| == 4 && (forall i :: 0 <= i < 4 ==> 0 <= b[i] < 0x100)
    && w == b[0] + 0x100 * b[1] + 0x1_0000 * b[2] + 0x100_0000 * b[3]
  }

  lemma BytesExist(w: Word) returns (b: seq<int>)
    ensures IsBytes(w as int, b)
  {
    var v := w as int;
    BytesOfWord(v);
    b := [v % 0x100, (v / 0x100) % 0x100, (v / 0x1_0000) % 0x100, v / 0x100_0000];
  }

  /** The parts of a word, in terms of its bytes. */
  lemma PartsOfWord(w: int, b: seq<int>)
    requires IsBytes(w, b)
    ensures w % 0x100 == b[0] && w / 0x100 == b[1] + 0x100 * b[2] + 0x1_0000 * b[3]
    ensures w % 0x1_0000 == b[0] + 0x100 * b[1] && w / 0x1_0000 == b[2] + 0x100 * b[3]
    ensures w % 0x100_0000 == b[0] + 0x100 * b[1] + 0x1_0000 * b[2] && w / 0x100_0000 == b[3]
  {
  }

  lemma MiddleBytes(w: int, b: seq<int>)
    requires IsBytes(w, b)
    ensures (w / 0x100) % 0x100 == b[1] && (w / 0x1_0000) % 0x100 == b[2]
  {
    PartsOfWord(w, b);
    var high, middle := w / 0x100, w / 0x1_0000;
    assert high == 0x100 * (b[2] + 0x100 * b[3]) + b[1];
    assert middle == 0x100 * b[3] + b[2];
  }

  /** Replacing a byte or a half-word of a word leaves the others. */
  lemma SetByteBytes(w: Word, b: seq<int>, k: Word, v: Word)
    requires IsBytes(w as int, b) && k < 4 && v < 0x100
    ensures IsBytes(SetByte(w, k, v) as int, b[k as int := v as int])
  {
    PartsOfWord(w as int, b);
  }

  lemma SetHalfBytes(w: Word, b: seq<int>, k: Word, v: Word, c: seq<int>)
    requires IsBytes(w as int, b) && k < 2 && IsBytes(v as int, c) && v < 0x1_0000
    ensures IsBytes(SetHalf(w, k, v) as int, if k == 0 then [c[0], c[1], b[2], b[3]] else [b[0], b[1], c[0], c[1]])
  {
    PartsOfWord(w as int, b);
  }

  /** The bytes in memory from an address on. */
  function BytesAt(m: Memory, a: int): (b: seq<int>)
    ensures |b| == 4 && forall i :: 0 <= i < 4 ==> 0 <= b[i] < 0x100
  {
    [ByteAt(m, a), ByteAt(m, a + 1), ByteAt(m, a + 2), ByteAt(m, a + 3)]
  }

  lemma ReadBytes(m: Memory, a: Word)
    requires Mapped(a)
    ensures IsBytes(Read32(m, a) as int, BytesAt(m, a as int))
  {
  }

  /** A written word changes its four bytes and no others. */
  lemma WriteBytes(m: Memory, a: Word, v: Word, b: seq<int>, x: int)
    requires Mapped(a) && a % 4 == 0 && 0 <= x < WORD_SIZE && IsBytes(v as int, b)
    ensures ByteAt(Write32(m, a, v), x) == if a as int <= x < a as int + 4 then b[x - a as int] else ByteAt(m, x)
  {
    var i := a as int;
    PartsOfWord(v as int, b);
    MiddleBytes(v as int, b);
    WrappedIsSame(i);
    WrappedIsSame(i + 1);
    WrappedIsSame(i + 2);
    WrappedIsSame(i + 3);
    WrappedIsSame(x);
  }

  // ---- loads and stores ----

  /** How many bytes an access is wide, and where in its word it starts. */
  function Width(opcode: Word): (width: nat)
    ensures width == 1 || width == 2 || width == 4
  {
    if opcode == OP_LW || opcode == OP_SW then 4
    else if opcode == OP_LH || opcode == OP_LHU || opcode == OP_SH then 2
    else 1
  }

  function Offset(opcode: Word, addr: Word): (k: nat)
    ensures k + Width(opcode) <= 4
  {
    if Width(opcode) == 4 then 0
    else if Width(opcode) == 2 then 2 * ((addr / 2 % 2) as nat)
    else (addr % 4) as nat
  }

  /** The first byte that it accesses. */
  function Lane(opcode: Word, addr: Word): int {
    Align(addr) as int + Offset(opcode, addr)
  }

  lemma LaneInRange(opcode: Word, addr: Word)
    ensures 0 <= Lane(opcode, addr) && Lane(opcode, addr) + Width(opcode) <= WORD_SIZE
  {
  }

  lemma StoredHalfBytes(word: Word, b: seq<int>, k: Word, value: Word, v: seq<int>)
    requires IsBytes(word as int, b) && IsBytes(value as int, v) && k < 2
    ensures IsBytes(SetHalf(word, k, value % 0x1_0000) as int,
                    if k == 0 then [v[0], v[1], b[2], b[3]] else [b[0], b[1], v[0], v[1]])
  {
    PartsOfWord(value as int, v);
    SetHalfBytes(word, b, k, value % 0x1_0000, [v[0], v[1], 0, 0]);
  }

  lemma StoredByteBytes(word: Word, b: seq<int>, k: Word, value: Word, v: seq<int>)
    requires IsBytes(word as int, b) && IsBytes(value as int, v) && k < 4
    ensures IsBytes(SetByte(word, k, value % 0x100) as int, b[k as int := v[0]])
  {
    PartsOfWord(value as int, v);
    SetByteBytes(word, b, k, value % 0x100);
  }

  /** The word that a store writes differs from the one before in the stored bytes only. */
  lemma StoredWordBytes(opcode: Word, addr: Word, word: Word, b: seq<int>, value: Word, v: seq<int>)
      returns (after: seq<int>)
    requires opcode in STORES && IsBytes(word as int, b) && IsBytes(value as int, v)
    ensures IsBytes(StoredWord(opcode, addr, word, value) as int, after)
    ensures
      var k, width := Offset(opcode, addr), Width(opcode);
      forall j :: 0 <= j < 4 ==> after[j] == if k <= j < k + width then v[j - k] else b[j]
  {
    if opcode == OP_SW {
      after := v;
    } else if opcode == OP_SH {
      var k := addr / 2 % 2;
      StoredHalfBytes(word, b, k, value, v);
      after := if k == 0 then [v[0], v[1], b[2], b[3]] else [b[0], b[1], v[0], v[1]];
    } else {
      StoredByteBytes(word, b, addr % 4, value, v);
      after := b[(addr % 4) as int := v[0]];
    }
  }

  lemma WriteLane(m: Memory, a: Word, k: nat, width: nat, stored: Word, after: seq<int>, v: seq<int>, x: int)
    requires Mapped(a) && a % 4 == 0 && 0 <= x < WORD_SIZE && k + width <= 4 && width <= |v|
    requires IsBytes(stored as int, after)
    requires forall j :: 0 <= j < 4 ==> after[j] == if k <= j < k + width then v[j - k] else BytesAt(m, a as int)[j]
    ensures ByteAt(Write32(m, a, stored), x) ==
            if a as int + k <= x < a as int + k + width then v[x - (a as int + k)] else ByteAt(m, x)
  {
    WriteBytes(m, a, stored, after, x);
  }

  /** A store changes exactly the bytes of its lane, to those of the value. */
  lemma StoreBytes(m: Memory, op: Op, v: seq<int>, x: int)
    requires op.opcode in STORES && Mapped(Align(op.memAddr)) && 0 <= x < WORD_SIZE && IsBytes(op.memValue as int, v)
    ensures
      var from := Lane(op.opcode, op.memAddr);
      ByteAt(AccessMemory(op, m).1, x) ==
        if from <= x < from + Width(op.opcode) then v[x - from] else ByteAt(m, x)
  {
    var a := Align(op.memAddr);
    ReadBytes(m, a);
    var b := BytesAt(m, a as int);
    var after := StoredWordBytes(op.opcode, op.memAddr, Read32(m, a), b, op.memValue, v);
    WriteLane(m, a, Offset(op.opcode, op.memAddr), Width(op.opcode),
              StoredWord(op.opcode, op.memAddr, Read32(m, a), op.memValue), after, v, x);
  }

  /** What a load makes of the number that it reads: some are extended by their sign. */
  function Extended(opcode: Word, v: int): int {
    if opcode == OP_LH && v >= 0x8000 then v + 0xFFFF_0000
    else if opcode == OP_LB && v >= 0x80 then v + 0xFFFF_FF00
    else v
  }

  /** The number in `width` bytes. */
  function Number(b: seq<int>, from: nat, width: nat): int
    requires from + width <= |b| && (width == 1 || width == 2 || width == 4)
  {
    if width == 4 then b[from] + 0x100 * b[from + 1] + 0x1_0000 * b[from + 2] + 0x100_0000 * b[from + 3]
    else if width == 2 then b[from] + 0x100 * b[from + 1]
    else b[from]
  }

  /** The parts that a load takes out of a word, in terms of its bytes. */
  lemma GetByteIs(w: Word, b: seq<int>, k: Word)
    requires IsBytes(w as int, b) && k < 4
    ensures GetByte(w, k) as int == b[k as int]
  {
    PartsOfWord(w as int, b);
    MiddleBytes(w as int, b);
  }

  lemma GetHalfIs(w: Word, b: seq<int>, k: Word)
    requires IsBytes(w as int, b) && k < 2
    ensures GetHalf(w, k) as int == b[2 * k as int] + 0x100 * b[2 * k as int + 1]
  {
    PartsOfWord(w as int, b);
  }

  lemma LoadedIs(opcode: Word, addr: Word, word: Word, b: seq<int>)
    requires opcode in LOADS && IsBytes(word as int, b)
    ensures LoadedValue(opcode, addr, word) as int
         == Extended(opcode, Number(b, Offset(opcode, addr), Width(opcode)))
  {
    if Width(opcode) == 2 {
      GetHalfIs(word, b, addr / 2 % 2);
    } else if Width(opcode) == 1 {
      GetByteIs(word, b, addr % 4);
    }
  }

  lemma LoadedSame(opcode: Word, addr: Word, w: Word, b: seq<int>, u: Word, c: seq<int>)
    requires opcode in LOADS && IsBytes(w as int, b) && IsBytes(u as int, c)
    requires
      var k, width := Offset(opcode, addr), Width(opcode);
      forall j :: k <= j < k + width ==> b[j] == c[j]
    ensures LoadedValue(opcode, addr, w) == LoadedValue(opcode, addr, u)
  {
    LoadedIs(opcode, addr, w, b);
    LoadedIs(opcode, addr, u, c);
  }

  lemma SameNumber(all: seq<int>, k: nat, b: seq<int>, width: nat)
    requires k + width <= |all| && |b| == width && (width == 1 || width == 2 || width == 4)
    requires forall i :: 0 <= i < width ==> all[k + i] == b[i]
    ensures Number(all, k, width) == Number(b, 0, width)
  {
    assert all[k + 0] == b[0];
  }

  lemma LoadWord(m: Memory, op: Op)
    requires op.opcode in LOADS && Mapped(Align(op.memAddr))
    ensures
      var all := BytesAt(m, Align(op.memAddr) as int);
      AccessMemory(op, m).0.dstValue as int ==
        Extended(op.opcode, Number(all, Offset(op.opcode, op.memAddr), Width(op.opcode)))
  {
    hide Mapped, Number, Extended;
    ReadBytes(m, Align(op.memAddr));
    LoadedIs(op.opcode, op.memAddr, Read32(m, Align(op.memAddr)), BytesAt(m, Align(op.memAddr) as int));
  }

  /** A load reads the bytes of its lane. */
  lemma LoadBytes(m: Memory, op: Op, b: seq<int>)
    requires op.opcode in LOADS && Mapped(Align(op.memAddr)) && |b| == Width(op.opcode)
    requires forall i :: 0 <= i < |b| ==> b[i] == ByteAt(m, Lane(op.opcode, op.memAddr) + i)
    ensures AccessMemory(op, m).0.dstValue as int == Extended(op.opcode, Number(b, 0, Width(op.opcode)))
  {
    hide AccessMemory, Mapped, Number, Extended, Align, ByteAt;
    var a, k := Align(op.memAddr), Offset(op.opcode, op.memAddr);
    LoadWord(m, op);
    var all := BytesAt(m, a as int);
    forall i | 0 <= i < |b|
      ensures all[k + i] == b[i]
    {
    }
    SameNumber(all, k, b, |b|);
  }

  /** The part of a value that fits a width. */
  function Truncated(v: Word, width: nat): int {
    if width == 4 then v as int else if width == 2 then v as int % 0x1_0000 else v as int % 0x100
  }

  /** Bytes `from` and on, in a memory. */
  function Bytes(m: Memory, from: int, width: nat): (b: seq<int>)
    ensures |b| == width && forall i :: 0 <= i < width ==> b[i] == ByteAt(m, from + i)
  {
    seq(width, i requires 0 <= i < width => ByteAt(m, from + i))
  }

  lemma TruncatedIs(value: Word, v: seq<int>, width: nat)
    requires IsBytes(value as int, v) && (width == 1 || width == 2 || width == 4)
    ensures Number(v[..width], 0, width) == Truncated(value, width)
  {
    PartsOfWord(value as int, v);
  }

  /** What is stored at an address is what a load of the same width finds there. */
  lemma StoreThenLoad(m: Memory, store: Op, load: Op)
    requires store.opcode in STORES && load.opcode in LOADS && Width(store.opcode) == Width(load.opcode)
    requires store.memAddr == load.memAddr && Mapped(Align(store.memAddr))
    ensures AccessMemory(load, AccessMemory(store, m).1).0.dstValue as int
         == Extended(load.opcode, Truncated(store.memValue, Width(load.opcode)))
  {
    var after, from, width := AccessMemory(store, m).1, Lane(store.opcode, store.memAddr), Width(store.opcode);
    var v := BytesExist(store.memValue);
    LaneInRange(store.opcode, store.memAddr);
    forall i | 0 <= i < width
      ensures v[..width][i] == ByteAt(after, from + i)
    {
      StoreBytes(m, store, v, from + i);
    }
    LoadBytes(after, load, v[..width]);
    TruncatedIs(store.memValue, v, width);
  }

  /** A store next to some bytes leaves them. */
  lemma StoreElsewhere(m: Memory, store: Op, from: int, width: nat)
    requires store.opcode in STORES && Mapped(Align(store.memAddr)) && 0 <= from && from + width <= WORD_SIZE
    requires
      var s := Lane(store.opcode, store.memAddr);
      s + Width(store.opcode) <= from || from + width <= s
    ensures Bytes(AccessMemory(store, m).1, from, width) == Bytes(m, from, width)
  {
    var after := AccessMemory(store, m).1;
    var v := BytesExist(store.memValue);
    forall i | 0 <= i < width
      ensures Bytes(after, from, width)[i] == Bytes(m, from, width)[i]
    {
      StoreBytes(m, store, v, from + i);
    }
  }

  lemma SameLane(m: Memory, t: Memory, a: int, k: nat, width: nat)
    requires k + width <= 4 && Bytes(t, a + k, width) == Bytes(m, a + k, width)
    ensures forall j :: k <= j < k + width ==> BytesAt(t, a)[j] == BytesAt(m, a)[j]
  {
    forall j | k <= j < k + width
      ensures BytesAt(t, a)[j] == BytesAt(m, a)[j]
    {
      assert Bytes(t, a + k, width)[j - k] == Bytes(m, a + k, width)[j - k];
    }
  }

  /** What a load finds depends on the bytes of its lane only. */
  lemma LoadSame(m: Memory, t: Memory, load: Op)
    requires load.opcode in LOADS && Mapped(Align(load.memAddr))
    requires
      var from, width := Lane(load.opcode, load.memAddr), Width(load.opcode);
      Bytes(t, from, width) == Bytes(m, from, width)
    ensures AccessMemory(load, t).0.dstValue == AccessMemory(load, m).0.dstValue
  {
    var a := Align(load.memAddr);
    SameLane(m, t, a as int, Offset(load.opcode, load.memAddr), Width(load.opcode));
    ReadBytes(t, a);
    ReadBytes(m, a);
    LoadedSame(load.opcode, load.memAddr, Read32(t, a), BytesAt(t, a as int), Read32(m, a), BytesAt(m, a as int));
  }

  /** A load from another lane finds what it found before. */
  lemma OtherLanesStay(m: Memory, store: Op, load: Op)
    requires store.opcode in STORES && load.opcode in LOADS
    requires Mapped(Align(store.memAddr)) && Mapped(Align(load.memAddr))
    requires
      var s, l := Lane(store.opcode, store.memAddr), Lane(load.opcode, load.memAddr);
      s + Width(store.opcode) <= l || l + Width(load.opcode) <= s
    ensures AccessMemory(load, AccessMemory(store, m).1).0.dstValue == AccessMemory(load, m).0.dstValue
  {
    LaneInRange(load.opcode, load.memAddr);
    StoreElsewhere(m, store, Lane(load.opcode, load.memAddr), Width(load.opcode));
    LoadSame(m, AccessMemory(store, m).1, load);
  }
}
