/**
 The set of small numbers of lab 4: up to twelve members are kept in a sorted array; the thirteenth turns
 the set into a bit vector of 64-bit words, for good.
 */
module FastSet {

  const MAX_SIZE: nat := 512
  const WORDS: nat := 8
  const SMALL_SIZE: nat := 13
  const SMALLER_SIZE: nat := 6

  /** A machine word by its bits, the lowest first. */
  type Word = w: seq<bool> | |w| == 64 witness seq(64, _ => false)

  const ZERO: Word := seq(64, _ => false)

  function Or(a: Word, b: Word): (c: Word)
    ensures forall i :: 0 <= i < 64 ==> c[i] == (a[i] || b[i])
  {
    seq(64, i requires 0 <= i < 64 => a[i] || b[i])
  }

  predicate Bit(bits: seq<Word>, x: nat)
    requires |bits| == WORDS && x < MAX_SIZE
  {
    bits[x / 64][x % 64]
  }

  ghost predicate Ascending(s: seq<nat>) {
    forall i, j :: 0 <= i < j < |s| ==> s[i] < s[j]
  }

  /** Ascending numbers: the i-th is at least i. */
  lemma {:induction false} AscendingIsAbove(s: seq<nat>, i: nat)
    requires Ascending(s) && i < |s|
    ensures s[i] >= i
  {
    if i > 0 {
      AscendingIsAbove(s, i - 1);
      assert s[i - 1] < s[i];
    }
  }

  lemma InsertAscending(s: seq<nat>, i: nat, x: nat)
    requires Ascending(s) && i <= |s| && (forall j :: 0 <= j < i ==> s[j] < x) && (i < |s| ==> x < s[i])
    ensures Ascending(s[..i] + [x] + s[i..]) && x !in s
    ensures forall y :: y in s[..i] + [x] + s[i..] <==> y == x || y in s
  {
    assert s == s[..i] + s[i..];
    assert i < |s| ==> forall j :: i <= j < |s| ==> x < s[j];
  }

  /** The members below `limit`, in ascending order. */
  ghost predicate IsListing(s: seq<nat>, members: set<nat>, limit: nat) {
    |s| <= limit && Ascending(s) && forall x :: x in s <==> x in members && x < limit
  }

  lemma AppendListed(s: seq<nat>, members: set<nat>, x: nat)
    requires IsListing(s, members, x) && x in members
    ensures IsListing(s + [x], members, x + 1)
  {
    assert forall i :: 0 <= i < |s| ==> s[i] in s;
  }

  lemma SkipListed(s: seq<nat>, members: set<nat>, x: nat)
    requires IsListing(s, members, x) && x !in members
    ensures IsListing(s, members, x + 1)
  {
  }

  class FastSet {
    const values: array<nat>
    const bits: array<Word>
    var card: nat
    ghost var members: set<nat>

    /** The small set is sorted. */
    ghost predicate SmallOk()
      reads this, values
      requires card <= values.Length
    {
      && Ascending(values[..card])
      && forall x :: x in members <==> x in values[..card]
    }

    ghost predicate BitsOk()
      reads this, bits
      requires bits.Length == WORDS
    {
      forall x :: 0 <= x < MAX_SIZE ==> (Bit(bits[..], x) <==> x in members)
    }

    ghost predicate Valid()
      reads this, values, bits
    {
      && values.Length == SMALL_SIZE && bits.Length == WORDS && card <= SMALL_SIZE
      && (forall x :: x in members ==> x < MAX_SIZE)
      && (card < SMALL_SIZE ==> SmallOk())
      && (card == SMALL_SIZE ==> BitsOk())
    }

    constructor ()
      ensures Valid() && members == {} && fresh(values) && fresh(bits)
    {
      values := new nat[SMALL_SIZE];
      bits := new Word[WORDS](_ => ZERO);
      card, members := 0, {};
    }

    method SetBit(x: nat)
      requires bits.Length == WORDS && x < MAX_SIZE
      modifies bits
      ensures forall y :: 0 <= y < MAX_SIZE ==> (Bit(bits[..], y) <==> y == x || old(Bit(bits[..], y)))
    {
      bits[x / 64] := bits[x / 64][x % 64 := true];
    }

    method GetBit(x: nat) returns (b: bool)
      requires bits.Length == WORDS && x < MAX_SIZE
      ensures b == Bit(bits[..], x)
    {
      b := bits[x / 64][x % 64];
    }

    /** Move the values from position i on up by one. */
    method MakeRoom(i: nat)
      requires i <= card < values.Length
      modifies values
      ensures forall k :: 0 <= k < i ==> values[k] == old(values[k])
      ensures forall k :: i <= k < card ==> values[k + 1] == old(values[k])
    {
      var j := card;
      while j > i
        invariant i <= j <= card
        invariant forall k :: 0 <= k < j ==> values[k] == old(values[k])
        invariant forall k :: j <= k < card ==> values[k + 1] == old(values[k])
      {
        values[j] := values[j - 1];
        j := j - 1;
      }
    }

    method InsertAt(i: nat, x: nat)
      requires i <= card < values.Length
      modifies values
      ensures values[..card + 1] == old(values[..i]) + [x] + old(values[i..card])
    {
      MakeRoom(i);
      values[i] := x;
      assert values[..i] == old(values[..i]);
      assert values[i + 1..card + 1] == old(values[i..card]);
      assert values[..card + 1] == values[..i] + [values[i]] + values[i + 1..card + 1];
    }

    /** Insert a number into the sorted array, unless it is there. */
    method InsertSmall(x: nat)
      requires values.Length == SMALL_SIZE && card < SMALL_SIZE && SmallOk()
      modifies this`card, this`members, values
      ensures card <= SMALL_SIZE && SmallOk() && members == old(members) + {x}
      ensures card == old(card) + if x in old(members) then 0 else 1
      ensures x in old(members) ==> values[..] == old(values[..])
    {
      var i := 0;
      while i < card && values[i] < x
        invariant 0 <= i <= card && forall j :: 0 <= j < i ==> values[j] < x
      {
        i := i + 1;
      }
      if i < card && values[i] == x {
        assert values[..card][i] == x;
        assert members == members + {x};
        return;
      }
      ghost var before := values[..card];
      InsertAscending(before, i, x);
      InsertAt(i, x);
      card := card + 1;
      members := members + {x};
    }

    method SearchSmallLinear(x: nat) returns (found: bool)
      requires card <= values.Length && SmallOk()
      ensures found <==> x in members
    {
      var i := 0;
      while i < card
        invariant 0 <= i <= card && forall j :: 0 <= j < i ==> values[j] < x
      {
        if values[i] > x {
          return false;
        }
        if values[i] == x {
          assert values[..card][i] == x;
          return true;
        }
        i := i + 1;
      }
      found := false;
    }

    /** Below a certain size linear search, above it binary search. */
    method SearchSmall(x: nat) returns (found: bool)
      requires card <= values.Length && SmallOk()
      ensures found <==> x in members
    {
      if card == 0 {
        return false;
      }
      if card < SMALLER_SIZE {
        found := SearchSmallLinear(x);
        return;
      }
      var begin, end: int := 0, card - 1;
      while begin <= end
        invariant 0 <= begin <= card && -1 <= end < card && begin <= end + 1
        invariant forall j :: 0 <= j < begin ==> values[j] < x
        invariant forall j :: end < j < card ==> values[j] > x
      {
        var middle := (begin + end) / 2;
        assert forall j :: 0 <= j < card ==> values[j] == values[..card][j];
        if x < values[middle] {
          end := middle - 1;
        } else if x > values[middle] {
          begin := middle + 1;
        } else {
          return true;
        }
      }
      found := false;
    }

    /** Turn the sorted array into bits. */
    method SmallToBit()
      requires values.Length == SMALL_SIZE && bits.Length == WORDS && card <= SMALL_SIZE && SmallOk()
      requires forall x :: x in members ==> x < MAX_SIZE
      modifies bits
      ensures BitsOk()
    {
      var i := 0;
      while i < WORDS
        invariant 0 <= i <= WORDS && forall j :: 0 <= j < i ==> bits[j] == ZERO
      {
        bits[i] := ZERO;
        i := i + 1;
      }
      i := 0;
      while i < card
        invariant 0 <= i <= card
        invariant forall y :: 0 <= y < MAX_SIZE ==> (Bit(bits[..], y) <==> y in values[..i])
      {
        assert values[i] in values[..card];
        SetBit(values[i]);
        assert values[..i + 1] == values[..i] + [values[i]];
        i := i + 1;
      }
    }

    method Insert(x: nat)
      requires Valid() && x < MAX_SIZE
      modifies this, values, bits
      ensures Valid() && members == old(members) + {x}
      ensures x in old(members) ==> card == old(card) && values[..] == old(values[..])
      ensures x !in old(members) ==> card == if old(card) < 13 then old(card) + 1 else 13
    {
      if card == 0 {
        values[0] := x;
        card, members := 1, members + {x};
        assert values[..1] == [x];
      } else if card < SMALL_SIZE {
        InsertSmall(x);
        if card == SMALL_SIZE {
          SmallToBit();
        }
      } else {
        SetBit(x);
        members := members + {x};
      }
    }

    method Search(x: nat) returns (found: bool)
      requires Valid() && x < MAX_SIZE
      ensures found <==> x in members
    {
      if card == 0 {
        found := false;
      } else if card == 1 {
        found := values[0] == x;
        assert values[..card] == [values[0]];
      } else if card < SMALL_SIZE {
        found := SearchSmall(x);
      } else {
        found := GetBit(x);
      }
    }

    /** Another object has its own arrays; a set may also be joined with itself. */
    ghost predicate IsApart(other: FastSet) {
      other != this ==> other.values != values && other.bits != bits
    }

    /** Become the union with a set, all of whose members are below n. */
    method Join(other: FastSet, n: nat)
      requires Valid() && other.Valid() && (other.card == SMALL_SIZE ==> n < MAX_SIZE)
      requires IsApart(other)
      requires forall x :: x in other.members ==> x < n
      modifies this, values, bits
      ensures Valid() && members == old(members) + other.members
    {
      if other.card == 0 {
        assert other.members == {};
        return;
      }
      if other.card < SMALL_SIZE {
        JoinSmall(other);
        return;
      }
      if card < SMALL_SIZE {
        SmallToBit();
        card := SMALL_SIZE;
      }
      JoinBits(other, n);
    }

    method JoinSmall(other: FastSet)
      requires Valid() && other.Valid() && other.card < SMALL_SIZE
      requires IsApart(other)
      modifies this, values, bits
      ensures Valid() && members == old(members) + other.members
    {
      var i := 0;
      while i < other.card
        invariant 0 <= i <= other.card == old(other.card) && Valid()
        invariant other.values[..] == old(other.values[..])
        invariant members == old(members) + set x | x in other.values[..i]
      {
        assert other.values[..i + 1] == other.values[..i] + [other.values[i]];
        assert other.values[i] in other.values[..other.card];
        Insert(other.values[i]);
        i := i + 1;
      }
    }

    /** Bitwise disjunction of the words that can hold members below n. */
    method JoinBits(other: FastSet, n: nat)
      requires Valid() && card == SMALL_SIZE && other.Valid() && other.card == SMALL_SIZE && n < MAX_SIZE
      requires IsApart(other)
      requires forall x :: x in other.members ==> x < n
      modifies this`members, bits
      ensures Valid() && members == old(members) + other.members
    {
      var lim := WordsFor(n);
      WordsInRange(n);
      var i := 0;
      while i < lim
        invariant 0 <= i <= lim && members == old(members)
        invariant forall j :: 0 <= j < i ==> bits[j] == Or(old(bits[j]), old(other.bits[j]))
        invariant forall j :: i <= j < WORDS ==> bits[j] == old(bits[j])
        invariant forall j :: i <= j < WORDS ==> other.bits[j] == old(other.bits[j])
      {
        bits[i] := Or(bits[i], other.bits[i]);
        i := i + 1;
      }
      members := members + other.members;
      forall x | 0 <= x < MAX_SIZE
        ensures Bit(bits[..], x) <==> x in members
      {
        assert old(Bit(bits[..], x) <==> x in members) && old(Bit(other.bits[..], x) <==> x in other.members);
        assert x < n ==> x / 64 < lim;
      }
    }

    /** List the members in ascending order.  As bits, only those below n are listed; as a sorted array all
        of them are, so that n then has no influence. */
    method Expand(v: array<nat>, n: nat) returns (k: nat)
      requires Valid() && n <= MAX_SIZE && v != values
      requires v.Length >= if card < SMALL_SIZE then card else n
      modifies v
      ensures k <= v.Length && Ascending(v[..k])
      ensures forall x :: x in v[..k] <==> x in members && (card < SMALL_SIZE || x < n)
    {
      if card < SMALL_SIZE {
        k := ExpandSmall(v);
      } else {
        k := ExpandBits(v, n);
      }
    }

    method ExpandSmall(v: array<nat>) returns (k: nat)
      requires card <= values.Length && card <= v.Length && v != values
      modifies v
      ensures k == card && v[..k] == values[..card]
    {
      k := 0;
      while k < card
        invariant k <= card && v[..k] == values[..k]
      {
        v[k] := values[k];
        k := k + 1;
      }
    }

    method ExpandBits(v: array<nat>, n: nat) returns (k: nat)
      requires bits.Length == WORDS && BitsOk() && n <= MAX_SIZE && v.Length >= n
      modifies v
      ensures k <= v.Length && Ascending(v[..k]) && forall x :: x in v[..k] <==> x in members && x < n
    {
      k := 0;
      var i := 0;
      while i < n
        invariant 0 <= i < n + 64 && i % 64 == 0
        invariant Listed(v, k, if i < n then i else n)
      {
        if bits[i / 64] != ZERO {
          k := ExpandWord(v, n, i, k);
        } else {
          forall x | i <= x < i + 64 && x < n
            ensures x !in members
          {
            assert !Bit(bits[..], x);
          }
        }
        i := i + 64;
      }
    }

    /** The members below `limit` are listed. */
    ghost predicate Listed(v: array<nat>, k: nat, limit: nat)
      reads this, v
    {
      k <= v.Length && IsListing(v[..k], members, limit)
    }

    method ExpandWord(v: array<nat>, n: nat, i: nat, k: nat) returns (l: nat)
      requires bits.Length == WORDS && BitsOk() && i < n <= MAX_SIZE && i % 64 == 0 && v.Length >= n
      requires Listed(v, k, i)
      modifies v
      ensures Listed(v, l, if i + 64 < n then i + 64 else n)
    {
      l := k;
      var j := 0;
      while j < 64 && i + j < n
        invariant 0 <= j <= 64 && i + j <= n && Listed(v, l, i + j)
      {
        var x := i + j;
        var b := GetBit(x);
        if b {
          ghost var before := v[..l];
          AppendListed(before, members, x);
          v[l] := x;
          l := l + 1;
          assert v[..l] == before + [x];
        } else {
          SkipListed(v[..l], members, x);
        }
        j := j + 1;
      }
    }
  }

  /** `((n | 63) + 1) / 64`: the words up to the next multiple of 64 above n. */
  function WordsFor(n: nat): nat {
    (n - n % 64 + 63 + 1) / 64
  }

  /** These words hold everything below n, and they exist exactly when n is below the maximal size: with
      n equal to it there would be one word too many. */
  lemma WordsInRange(n: nat)
    ensures WordsFor(n) <= WORDS <==> n < MAX_SIZE
    ensures forall x :: 0 <= x < n ==> x / 64 < WordsFor(n)
  {
  }
}
