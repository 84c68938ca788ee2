/** Small datatypes shared by the models. */
module Common {
  datatype Option<+T> = None | Some(value: T)

  function Min(a: int, b: int): int {
    if a <= b then a else b
  }

  function Max(a: int, b: int): int {
    if a >= b then a else b
  }

  function Pow2(n: nat): (p: nat)
    ensures p > 0
  {
    if n == 0 then 1 else 2 * Pow2(n - 1)
  }

  /** A sequence without its element k. */
  function Without<T>(s: seq<T>, k: nat): seq<T>
    requires k < |s|
  {
    s[..k] + s[k + 1..]
  }

  lemma {:induction false} SubsetSize(a: set<nat>, b: set<nat>)
    requires a <= b
    ensures |a| <= |b|
  {
    if a != {} {
      var x :| x in a;
      SubsetSize(a - {x}, b - {x});
    }
  }

  /** The pigeonhole principle: n places for n numbers leave no place for a second copy. */
  lemma {:induction false} Pigeonhole(s: seq<nat>, n: nat)
    requires |s| == n && forall k :: 0 <= k < n ==> k in s
    ensures forall i, j :: 0 <= i < j < n ==> s[i] != s[j]
    ensures forall i :: 0 <= i < n ==> s[i] < n
  {
    if n > 0 {
      assert n - 1 in s;
      var k :| 0 <= k < n && s[k] == n - 1;
      var left := Without(s, k);
      forall m | 0 <= m < n - 1
        ensures m in left
      {
        assert m in s;
        var i :| 0 <= i < n && s[i] == m;
        assert left[if i < k then i else i - 1] == m;
      }
      Pigeonhole(left, n - 1);
      forall i | 0 <= i < n && i != k
        ensures s[i] < n - 1
      {
        assert s[i] == left[if i < k then i else i - 1];
      }
      forall i, j | 0 <= i < j < n
        ensures s[i] != s[j]
      {
        if i != k && j != k {
          assert s[i] == left[if i < k then i else i - 1] && s[j] == left[if j < k then j else j - 1];
        }
      }
    }
  }
}
