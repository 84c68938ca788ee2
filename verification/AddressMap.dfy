/**
 How the memory of lab 3 slices the number of a transaction into an address vector, under either mapping
 order, and why for power-of-two sizes no two transactions share a vector and no vector is left out.
 */
module AddressMap {
  import opened Common

  lemma {:induction false} Pow2Grows(a: nat, b: nat)
    requires a < b
    ensures Pow2(a) < Pow2(b)
    decreases b
  {
    if a < b - 1 {
      Pow2Grows(a, b - 1);
    }
  }

  /** The bits of a field: halve the size until it is gone.  For a power of two this is its exponent. */
  method CalcLog2(size: nat) returns (n: nat)
    requires size > 0
    ensures Pow2(n) <= size < Pow2(n + 1)
    ensures forall k: nat :: size == Pow2(k) ==> n == k
  {
    n := 0;
    var left := size;
    ghost var rest: nat := 0;
    while left / 2 > 0
      invariant left > 0 && rest < Pow2(n) && size == left * Pow2(n) + rest
    {
      HalveOnce(left, Pow2(n), rest, size);
      rest := (left % 2) * Pow2(n) + rest;
      left := left / 2;
      n := n + 1;
    }
    assert left == 1;
    UniqueExponent(size, n);
  }

  lemma UniqueExponent(size: nat, n: nat)
    requires Pow2(n) <= size < Pow2(n + 1)
    ensures forall k: nat :: size == Pow2(k) ==> n == k
  {
    forall k: nat | size == Pow2(k)
      ensures n == k
    {
      if k < n {
        Pow2Grows(k, n);
      } else if n + 1 < k {
        Pow2Grows(n + 1, k);
      }
    }
  }

  lemma HalveOnce(left: nat, p: nat, rest: nat, size: nat)
    requires left > 0 && rest < p && size == left * p + rest
    ensures size == (left / 2) * (2 * p) + ((left % 2) * p + rest)
    ensures 0 <= (left % 2) * p + rest < 2 * p
  {
    var h, b := left / 2, left % 2;
    assert left == 2 * h + b;
    assert left * p == (2 * h + b) * p == h * (2 * p) + b * p;
    assert b == 0 || b == 1;
  }

  lemma {:induction false} OnceIsLess(k: nat, p: nat)
    requires k > 0
    ensures p <= k * p
  {
    if k > 1 {
      OnceIsLess(k - 1, p);
      assert k * p == (k - 1) * p + p;
    }
  }

  // ---- numbers and their digits ----

  /** As many numbers as there are vectors. */
  function Product(sizes: seq<nat>): nat {
    if sizes == [] then 1 else sizes[0] * Product(sizes[1..])
  }

  /** The lowest digit of a number, and what is left without it. */
  function Low(x: nat, size: nat): (d: nat)
    requires size > 0
    ensures d < size
  {
    x % size
  }

  function High(x: nat, size: nat): nat
    requires size > 0
  {
    x / size
  }

  ghost predicate Positive(sizes: seq<nat>) {
    forall i :: 0 <= i < |sizes| ==> sizes[i] > 0
  }

  /** Slice a number from its lowest digit on. */
  function Digits(x: nat, sizes: seq<nat>): (digits: seq<nat>)
    requires Positive(sizes)
    ensures |digits| == |sizes|
    decreases |sizes|
  {
    if sizes == [] then [] else [Low(x, sizes[0])] + Digits(High(x, sizes[0]), sizes[1..])
  }

  ghost predicate InRange(digits: seq<nat>, sizes: seq<nat>) {
    |digits| == |sizes| && forall i :: 0 <= i < |sizes| ==> digits[i] < sizes[i]
  }

  function Value(digits: seq<nat>, sizes: seq<nat>): nat
    requires |digits| == |sizes|
  {
    if sizes == [] then 0 else digits[0] + sizes[0] * Value(digits[1..], sizes[1..])
  }

  lemma DivideBack(d: nat, c: nat, x: nat)
    requires d < c
    ensures Low(d + c * x, c) == d && High(d + c * x, c) == x
  {
    var y := d + c * x;
    var q, r := y / c, y % c;
    assert y == c * q + r;
    assert c * (x - q) == r - d;
    if x > q {
      OnceIsLess(x - q, c);
    } else if q > x {
      OnceIsLess(q - x, c);
    }
  }

  lemma QuotientIsLess(x: nat, c: nat, p: nat)
    requires c > 0 && x < c * p
    ensures High(x, c) < p && x == Low(x, c) + c * High(x, c)
  {
    var q := x / c;
    assert x == c * q + x % c;
    if q >= p {
      MonotoneTimes(c, p, q);
    }
  }

  lemma {:induction false} MonotoneTimes(c: nat, p: nat, q: nat)
    requires p <= q
    ensures c * p <= c * q
    decreases q - p
  {
    if p < q {
      MonotoneTimes(c, p, q - 1);
      assert c * q == c * (q - 1) + c;
    }
  }

  lemma {:induction false} DigitsAreInRange(x: nat, sizes: seq<nat>)
    requires Positive(sizes)
    ensures InRange(Digits(x, sizes), sizes)
    decreases |sizes|
  {
    if sizes != [] {
      DigitsAreInRange(High(x, sizes[0]), sizes[1..]);
      forall i | 1 <= i < |sizes|
        ensures Digits(x, sizes)[i] < sizes[i]
      {
        assert Digits(x, sizes)[i] == Digits(High(x, sizes[0]), sizes[1..])[i - 1];
      }
    }
  }

  /** Putting the digits of a number together gives the number. */
  lemma {:induction false} ValueOfDigits(x: nat, sizes: seq<nat>)
    requires Positive(sizes) && x < Product(sizes)
    ensures Value(Digits(x, sizes), sizes) == x
    decreases |sizes|
  {
    if sizes != [] {
      QuotientIsLess(x, sizes[0], Product(sizes[1..]));
      ValueOfDigits(High(x, sizes[0]), sizes[1..]);
      assert Digits(x, sizes)[1..] == Digits(High(x, sizes[0]), sizes[1..]);
    }
  }

  lemma LessThanProduct(d: nat, c: nat, x: nat, p: nat)
    requires d < c && x < p
    ensures d + c * x < c * p
  {
    MonotoneTimes(c, x + 1, p);
    assert c * (x + 1) == c * x + c;
  }

  /** Slicing a number put together from digits gives the digits. */
  lemma {:induction false} DigitsOfValue(digits: seq<nat>, sizes: seq<nat>)
    requires Positive(sizes) && InRange(digits, sizes)
    ensures Digits(Value(digits, sizes), sizes) == digits
    ensures Value(digits, sizes) < Product(sizes)
    decreases |sizes|
  {
    if sizes != [] {
      var rest := Value(digits[1..], sizes[1..]);
      DigitsOfValue(digits[1..], sizes[1..]);
      DivideBack(digits[0], sizes[0], rest);
      LessThanProduct(digits[0], sizes[0], rest, Product(sizes[1..]));
      hide Low, High;
    }
  }

  // ---- the address vector ----

  /** The levels of the address vector from channel to column, in the order in which they are sliced off. */
  datatype Mapping = ChRaBaRoCo | RoBaRaCoCh

  function Order(mapping: Mapping, levels: nat): (order: seq<nat>)
    requires levels >= 2
    ensures |order| == levels && forall k :: 0 <= k < levels ==> order[k] < levels
  {
    match mapping
    case ChRaBaRoCo => seq(levels, k requires 0 <= k < levels => levels - 1 - k)
    case RoBaRaCoCh =>
      seq(levels, k requires 0 <= k < levels => if k == 0 then 0 else if k == 1 then levels - 1 else k - 1)
  }

  /** When in the order a level is sliced off. */
  function Position(mapping: Mapping, levels: nat, level: nat): (k: nat)
    requires levels >= 2 && level < levels
    ensures k < levels && Order(mapping, levels)[k] == level
  {
    match mapping
    case ChRaBaRoCo => levels - 1 - level
    case RoBaRaCoCh => if level == 0 then 0 else if level == levels - 1 then 1 else level + 1
  }

  /** No level is sliced off twice. */
  lemma OrderIsPermutation(mapping: Mapping, levels: nat, k: nat)
    requires levels >= 2 && k < levels
    ensures Position(mapping, levels, Order(mapping, levels)[k]) == k
  {
  }

  /** The sizes of the slices, given the bits of each level. */
  function Sizes(bits: seq<nat>, mapping: Mapping): (sizes: seq<nat>)
    requires |bits| >= 2
    ensures |sizes| == |bits| && forall k :: 0 <= k < |sizes| ==> sizes[k] == Pow2(bits[Order(mapping, |bits|)[k]])
  {
    seq(|bits|, k requires 0 <= k < |bits| => Pow2(bits[Order(mapping, |bits|)[k]]))
  }

  /** The address vector of a transaction. */
  function Vector(x: nat, bits: seq<nat>, mapping: Mapping): (v: seq<nat>)
    requires |bits| >= 2
    ensures |v| == |bits|
  {
    seq(|bits|, level requires 0 <= level < |bits| =>
      Digits(x, Sizes(bits, mapping))[Position(mapping, |bits|, level)])
  }

  /** The transaction with an address vector. */
  function Transaction(v: seq<nat>, bits: seq<nat>, mapping: Mapping): nat
    requires |v| == |bits| >= 2
  {
    Value(seq(|bits|, k requires 0 <= k < |bits| => v[Order(mapping, |bits|)[k]]), Sizes(bits, mapping))
  }

  ghost predicate IsVector(v: seq<nat>, bits: seq<nat>) {
    |v| == |bits| && forall i :: 0 <= i < |v| ==> v[i] < Pow2(bits[i])
  }

  /** Every transaction below the maximal address is found again from its vector, whose entries are in
      range. */
  lemma VectorRoundTrip(x: nat, bits: seq<nat>, mapping: Mapping)
    requires |bits| >= 2 && x < Product(Sizes(bits, mapping))
    ensures IsVector(Vector(x, bits, mapping), bits)
    ensures Transaction(Vector(x, bits, mapping), bits, mapping) == x
  {
    var sizes, digits := Sizes(bits, mapping), Digits(x, Sizes(bits, mapping));
    DigitsAreInRange(x, sizes);
    ValueOfDigits(x, sizes);
    forall k | 0 <= k < |bits|
      ensures Vector(x, bits, mapping)[Order(mapping, |bits|)[k]] == digits[k]
    {
      OrderIsPermutation(mapping, |bits|, k);
    }
    assert seq(|bits|, k requires 0 <= k < |bits| => Vector(x, bits, mapping)[Order(mapping, |bits|)[k]]) == digits;
  }

  /** Every vector in range is the vector of a transaction below the maximal address. */
  lemma TransactionRoundTrip(v: seq<nat>, bits: seq<nat>, mapping: Mapping)
    requires |bits| >= 2 && IsVector(v, bits)
    ensures Transaction(v, bits, mapping) < Product(Sizes(bits, mapping))
    ensures Vector(Transaction(v, bits, mapping), bits, mapping) == v
  {
    var digits := seq(|bits|, k requires 0 <= k < |bits| => v[Order(mapping, |bits|)[k]]);
    DigitsOfValue(digits, Sizes(bits, mapping));
  }

  // ---- how many addresses there are ----

  lemma ProductIsPositive(sizes: seq<nat>)
    requires Positive(sizes)
    ensures Product(sizes) > 0
  {
    if sizes != [] {
      ProductIsPositive(sizes[1..]);
      OnceIsLess(sizes[0], Product(sizes[1..]));
    }
  }

  lemma {:induction false} ProductOfConcat(a: seq<nat>, b: seq<nat>)
    ensures Product(a + b) == Product(a) * Product(b)
    decreases |a|
  {
    if a == [] {
      assert a + b == b;
    } else {
      ProductOfConcat(a[1..], b);
      assert (a + b)[1..] == a[1..] + b;
      Associates(a[0], Product(a[1..]), Product(b));
    }
  }

  lemma Associates(x: nat, y: nat, z: nat)
    ensures x * (y * z) == x * y * z
  {
  }

  lemma ProductOfOne(x: nat)
    ensures Product([x]) == x
  {
    assert [x][1..] == [];
  }

  function Backwards(s: seq<nat>): (r: seq<nat>)
    ensures |r| == |s| && forall k :: 0 <= k < |s| ==> r[k] == s[|s| - 1 - k]
  {
    seq(|s|, k requires 0 <= k < |s| => s[|s| - 1 - k])
  }

  lemma {:induction false} ProductBackwards(s: seq<nat>)
    ensures Product(Backwards(s)) == Product(s)
    decreases |s|
  {
    if s != [] {
      ProductBackwards(s[1..]);
      assert Backwards(s) == Backwards(s[1..]) + [s[0]];
      ProductOfConcat(Backwards(s[1..]), [s[0]]);
      ProductOfOne(s[0]);
    } else {
      assert Backwards(s) == s;
    }
  }

  function Powers(bits: seq<nat>): (sizes: seq<nat>)
    ensures |sizes| == |bits| && forall k :: 0 <= k < |bits| ==> sizes[k] == Pow2(bits[k])
  {
    seq(|bits|, k requires 0 <= k < |bits| => Pow2(bits[k]))
  }

  lemma ProductRotated(a: seq<nat>, b: seq<nat>, c: seq<nat>)
    ensures Product(a + (b + c)) == Product(a + (c + b))
  {
    ProductOfConcat(a, b + c);
    ProductOfConcat(a, c + b);
    ProductOfConcat(b, c);
    ProductOfConcat(c, b);
    Commutes(Product(b), Product(c));
  }

  lemma Commutes(x: nat, y: nat)
    ensures x * y == y * x
  {
  }

  lemma ProductOfLast(before: seq<nat>, x: nat)
    ensures Product(before + [x]) == Product(before) * x
  {
    ProductOfConcat(before, [x]);
    ProductOfOne(x);
  }

  /** Both mapping orders have as many vectors. */
  lemma OrderKeepsProduct(bits: seq<nat>, mapping: Mapping)
    requires |bits| >= 2
    ensures Product(Sizes(bits, mapping)) == Product(Powers(bits))
  {
    var sizes, powers, last := Sizes(bits, mapping), Powers(bits), |bits| - 1;
    match mapping {
      case ChRaBaRoCo =>
        assert sizes == Backwards(powers);
        ProductBackwards(powers);
      case RoBaRaCoCh =>
        var middle := powers[1..last];
        assert sizes == [powers[0]] + ([powers[last]] + middle);
        assert powers == [powers[0]] + (middle + [powers[last]]);
        ProductRotated([powers[0]], [powers[last]], middle);
    }
  }

  lemma TimesGrowsBoth(a: nat, b: nat, x: nat, y: nat)
    requires 0 < a <= b && 0 < x <= y
    ensures a * x <= b * y && (a * x == b * y <==> a == b && x == y)
  {
    MonotoneTimes(a, x, y);
    assert b * y == a * y + (b - a) * y;
    if a < b {
      OnceIsLess(b - a, y);
    }
    if x < y {
      assert a * y == a * x + a * (y - x);
      OnceIsLess(a, y - x);
    }
  }

  lemma {:induction false} ProductGrows(a: seq<nat>, b: seq<nat>)
    requires |a| == |b| && Positive(a) && forall k :: 0 <= k < |a| ==> a[k] <= b[k]
    ensures 0 < Product(a) <= Product(b) && (Product(a) == Product(b) <==> a == b)
    decreases |a|
  {
    ProductIsPositive(a);
    if a != [] {
      ProductGrows(a[1..], b[1..]);
      TimesGrowsBoth(a[0], b[0], Product(a[1..]), Product(b[1..]));
      assert a[0] == b[0] && a[1..] == b[1..] ==> a == b by {
        assert a == [a[0]] + a[1..] && b == [b[0]] + b[1..];
      }
    }
  }

  lemma {:induction false} PowersAdd(a: nat, b: nat)
    ensures Pow2(a + b) == Pow2(a) * Pow2(b)
  {
    if a > 0 {
      PowersAdd(a - 1, b);
      Associates(2, Pow2(a - 1), Pow2(b));
    }
  }

  /** The bits of each level: those of its size, but for the columns of one transaction. */
  function AddrBits(logs: seq<nat>, prefetchBits: nat): (bits: seq<nat>)
    requires |logs| >= 2 && prefetchBits <= logs[|logs| - 1]
    ensures |bits| == |logs|
  {
    logs[|logs| - 1 := logs[|logs| - 1] - prefetchBits]
  }

  ghost predicate AreLogs(logs: seq<nat>, counts: seq<nat>) {
    |logs| == |counts| && forall l :: 0 <= l < |logs| ==> Pow2(logs[l]) <= counts[l] < Pow2(logs[l] + 1)
  }

  /** The number of bytes of the memory: the width of the channel times the sizes of all levels. */
  function MaxAddress(width: nat, counts: seq<nat>): nat {
    width * Product(counts)
  }

  lemma Exchanges(x: nat, y: nat, z: nat)
    ensures x * (y * z) == y * (x * z)
  {
    Associates(x, y, z);
    Commutes(x, y);
    Associates(y, x, z);
  }

  lemma PrefetchSplits(logs: seq<nat>, prefetchBits: nat)
    requires |logs| >= 2 && prefetchBits <= logs[|logs| - 1]
    ensures Pow2(prefetchBits) * Product(Powers(AddrBits(logs, prefetchBits))) == Product(Powers(logs))
  {
    var last := |logs| - 1;
    var bits := AddrBits(logs, prefetchBits);
    var before, less, all := Powers(logs)[..last], Pow2(bits[last]), Pow2(logs[last]);
    assert Powers(logs) == before + [all] && Powers(bits) == before + [less];
    PowersAdd(prefetchBits, bits[last]);
    ProductOfLast(before, all);
    ProductOfLast(before, less);
    Exchanges(Pow2(prefetchBits), Product(before), less);
  }

  /** The transactions that have an address vector cover no more than the memory, under either order, and
      all of it exactly when all levels have a power of two of members. */
  lemma VectorsCoverMemory(counts: seq<nat>, logs: seq<nat>, widthBits: nat, prefetchBits: nat, mapping: Mapping)
    requires AreLogs(logs, counts) && |logs| >= 2 && prefetchBits <= logs[|logs| - 1]
    ensures
      var covered := Pow2(widthBits + prefetchBits) * Product(Sizes(AddrBits(logs, prefetchBits), mapping));
      && covered <= MaxAddress(Pow2(widthBits), counts)
      && (covered == MaxAddress(Pow2(widthBits), counts) <==> Powers(logs) == counts)
  {
    var vectors := Product(Sizes(AddrBits(logs, prefetchBits), mapping));
    OrderKeepsProduct(AddrBits(logs, prefetchBits), mapping);
    PrefetchSplits(logs, prefetchBits);
    PowersAdd(widthBits, prefetchBits);
    Associates(Pow2(widthBits), Pow2(prefetchBits), vectors);
    ProductGrows(Powers(logs), counts);
    TimesGrowsBoth(Pow2(widthBits), Pow2(widthBits), Product(Powers(logs)), Product(counts));
  }

  /** So with powers of two every address of the memory belongs to a transaction that is found again from
      its vector. */
  lemma AddressRoundTrip(addr: nat, counts: seq<nat>, logs: seq<nat>, widthBits: nat, prefetchBits: nat,
                         mapping: Mapping)
    requires |logs| >= 2 && prefetchBits <= logs[|logs| - 1] && AreLogs(logs, counts) && Powers(logs) == counts
    requires addr < MaxAddress(Pow2(widthBits), counts)
    ensures
      var bits, x := AddrBits(logs, prefetchBits), High(addr, Pow2(widthBits + prefetchBits));
      IsVector(Vector(x, bits, mapping), bits) && Transaction(Vector(x, bits, mapping), bits, mapping) == x
  {
    var bits, txSize := AddrBits(logs, prefetchBits), Pow2(widthBits + prefetchBits);
    VectorsCoverMemory(counts, logs, widthBits, prefetchBits, mapping);
    QuotientIsLess(addr, txSize, Product(Sizes(bits, mapping)));
    VectorRoundTrip(High(addr, txSize), bits, mapping);
  }

  // ---- which bits are whose ----

  /** The number whose highest digits are those of the channel and whose lowest ones are those of the column. */
  function FromChannel(v: seq<nat>, bits: seq<nat>): nat
    requires |v| == |bits|
  {
    if v == [] then 0 else
      var last := |v| - 1;
      FromChannel(v[..last], bits[..last]) * Pow2(bits[last]) + v[last]
  }

  lemma {:induction false} ValueBackwards(v: seq<nat>, bits: seq<nat>)
    requires |v| == |bits|
    ensures Value(Backwards(v), Backwards(Powers(bits))) == FromChannel(v, bits)
  {
    if v != [] {
      var last := |v| - 1;
      ValueBackwards(v[..last], bits[..last]);
      assert Backwards(v) == [v[last]] + Backwards(v[..last]);
      assert Backwards(Powers(bits)) == [Pow2(bits[last])] + Backwards(Powers(bits[..last]));
      Commutes(FromChannel(v[..last], bits[..last]), Pow2(bits[last]));
    }
  }

  /** ChRaBaRoCo: the transactions of a channel, of a rank in it, of a bank in that, and of a row are consecutive
      numbers, and the column counts them. */
  lemma ChannelIsHighest(v: seq<nat>, bits: seq<nat>)
    requires |v| == |bits| >= 2
    ensures Transaction(v, bits, ChRaBaRoCo) == FromChannel(v, bits)
  {
    hide Pow2;
    assert Sizes(bits, ChRaBaRoCo) == Backwards(Powers(bits));
    assert seq(|bits|, k requires 0 <= k < |bits| => v[Order(ChRaBaRoCo, |bits|)[k]]) == Backwards(v);
    ValueBackwards(v, bits);
  }

  lemma ValueOfCons(d: nat, digits: seq<nat>, size: nat, sizes: seq<nat>)
    requires |digits| == |sizes|
    ensures Value([d] + digits, [size] + sizes) == d + size * Value(digits, sizes)
  {
    assert ([d] + digits)[1..] == digits && ([size] + sizes)[1..] == sizes;
  }

  /** RoBaRaCoCh: consecutive numbers go round the channels, then the columns, then the ranks and so on up to the
      row. */
  lemma RowIsHighest(v: seq<nat>, bits: seq<nat>)
    requires |v| == |bits| >= 2
    ensures
      var last := |v| - 1;
      Transaction(v, bits, RoBaRaCoCh) ==
      v[0] + Pow2(bits[0]) * (v[last] + Pow2(bits[last]) * Value(v[1..last], Powers(bits[1..last])))
  {
    var last := |v| - 1;
    var middle, powers := v[1..last], Powers(bits[1..last]);
    assert Sizes(bits, RoBaRaCoCh) == [Pow2(bits[0])] + ([Pow2(bits[last])] + powers);
    assert seq(|bits|, k requires 0 <= k < |bits| => v[Order(RoBaRaCoCh, |bits|)[k]]) == [v[0]] + ([v[last]] + middle);
    ValueOfCons(v[0], [v[last]] + middle, Pow2(bits[0]), [Pow2(bits[last])] + powers);
    ValueOfCons(v[last], middle, Pow2(bits[last]), powers);
  }

  lemma FitsIff(d: nat, a: nat, b: nat)
    ensures d < Pow2(a) <==> d * Pow2(b) < Pow2(a + b)
  {
    PowersAdd(a, b);
    if d < Pow2(a) {
      MonotoneTimes(Pow2(b), d + 1, Pow2(a));
      Commutes(Pow2(b), d + 1);
      Commutes(Pow2(b), Pow2(a));
      assert (d + 1) * Pow2(b) == d * Pow2(b) + Pow2(b);
    } else {
      MonotoneTimes(Pow2(b), Pow2(a), d);
      Commutes(Pow2(b), d);
      Commutes(Pow2(b), Pow2(a));
    }
  }

  /** Vectors name every member of every level but the columns, of which they name the first one of each burst. */
  lemma VectorsNameMembers(v: seq<nat>, counts: seq<nat>, logs: seq<nat>, prefetchBits: nat)
    requires |v| == |logs| >= 2 && prefetchBits <= logs[|logs| - 1] && Powers(logs) == counts
    ensures
      var last := |v| - 1;
      IsVector(v, AddrBits(logs, prefetchBits)) <==>
      (forall l :: 0 <= l < last ==> v[l] < counts[l]) && FitsColumn(v[last], Pow2(prefetchBits), counts[last])
  {
    var last := |v| - 1;
    var bits := AddrBits(logs, prefetchBits);
    FitsIff(v[last], logs[last] - prefetchBits, prefetchBits);
    assert FitsColumn(v[last], Pow2(prefetchBits), counts[last]) <==> v[last] < Pow2(bits[last]);
    assert forall l :: 0 <= l < last ==> bits[l] == logs[l] && counts[l] == Pow2(logs[l]);
    hide FitsColumn, Pow2, AddrBits;
  }

  /** The first column of a burst is one of the columns. */
  predicate FitsColumn(burst: nat, columns: nat, count: nat) {
    burst * columns < count
  }

  /** Slice in place: every step takes the lowest bits that are left. */
  method Slice(transaction: nat, bits: seq<nat>, mapping: Mapping, v: array<nat>)
    requires v.Length == |bits| >= 2
    modifies v
    ensures v[..] == Vector(transaction, bits, mapping)
  {
    ghost var sizes := Sizes(bits, mapping);
    ghost var digits := Digits(transaction, sizes);
    var order := Order(mapping, |bits|);
    var addr := transaction;
    var k := 0;
    while k < |bits|
      invariant 0 <= k <= |bits| && digits[k..] == Digits(addr, sizes[k..])
      invariant forall j :: 0 <= j < k ==> v[order[j]] == digits[j]
    {
      var size := Pow2(bits[order[k]]);
      assert sizes[k..][0] == size && sizes[k..][1..] == sizes[k + 1..];
      assert digits[k..][0] == digits[k];
      assert digits[k + 1..] == digits[k..][1..];
      forall j | 0 <= j < k
        ensures order[j] != order[k]
      {
        OrderIsPermutation(mapping, |bits|, j);
        OrderIsPermutation(mapping, |bits|, k);
      }
      v[order[k]] := Low(addr, size);
      addr := High(addr, size);
      k := k + 1;
    }
    forall level | 0 <= level < |bits|
      ensures v[level] == Vector(transaction, bits, mapping)[level]
    {
      assert v[order[Position(mapping, |bits|, level)]] == digits[Position(mapping, |bits|, level)];
    }
  }
}
