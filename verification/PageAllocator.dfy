/**
 The random page allocator of lab 3: virtual pages get physical pages on first use.  The random numbers
 are inputs.
 */
module PageAllocator {

  const PAGE_SIZE: nat := 4096
  const FREE: int := -1

  datatype Target = Target(core: nat, page: nat)

  /** How many physical pages are free. */
  function FreeCount(pages: seq<int>): nat {
    if pages == [] then 0 else
      FreeCount(pages[..|pages| - 1]) + if pages[|pages| - 1] == FREE then 1 else 0
  }

  lemma {:induction false} SomeIsFree(pages: seq<int>) returns (f: nat)
    requires FreeCount(pages) > 0
    ensures f < |pages| && pages[f] == FREE
  {
    f := |pages| - 1;
    if pages[f] != FREE {
      f := SomeIsFree(pages[..f]);
    }
  }

  lemma {:induction false} NoneIsFree(pages: seq<int>, f: nat)
    requires FreeCount(pages) == 0 && f < |pages|
    ensures pages[f] != FREE
  {
    if f < |pages| - 1 {
      NoneIsFree(pages[..|pages| - 1], f);
    }
  }

  lemma {:induction false} AfterAssign(pages: seq<int>, f: nat, core: nat)
    requires f < |pages| && pages[f] == FREE
    ensures FreeCount(pages[f := core]) == FreeCount(pages) - 1
  {
    var last := |pages| - 1;
    if f < last {
      AfterAssign(pages[..last], f, core);
      assert pages[f := core][..last] == pages[..last][f := core];
    } else {
      assert pages[f := core][..last] == pages[..last];
    }
  }

  lemma {:induction false} AllFree(pages: seq<int>)
    requires forall i :: 0 <= i < |pages| ==> pages[i] == FREE
    ensures FreeCount(pages) == |pages|
  {
    if pages != [] {
      AllFree(pages[..|pages| - 1]);
    }
  }

  /** No physical page belongs to two virtual pages. */
  ghost predicate Injective(translation: map<Target, nat>) {
    forall s, t :: s in translation && t in translation && s != t ==> translation[s] != translation[t]
  }

  /** Every assigned page exists and is not free. */
  ghost predicate Assigned(translation: map<Target, nat>, pages: seq<int>) {
    forall t :: t in translation ==> translation[t] < |pages| && pages[translation[t]] != FREE
  }

  /** Every taken page has been given to some virtual page. */
  ghost predicate Given(translation: map<Target, nat>, pages: seq<int>) {
    forall f :: 0 <= f < |pages| && pages[f] != FREE ==> exists t :: t in translation && translation[t] == f
  }

  lemma GivenKeeps(translation: map<Target, nat>, pages: seq<int>, target: Target, page: nat)
    requires Given(translation, pages) && target !in translation && page < |pages|
    ensures Given(translation[target := page], pages[page := target.core])
  {
    var after := translation[target := page];
    var taken := pages[page := target.core];
    forall f | 0 <= f < |taken| && taken[f] != FREE
      ensures exists t :: t in after && after[t] == f
    {
      if f == page {
        assert after[target] == f;
      } else {
        var t :| t in translation && translation[t] == f;
        assert after[t] == f;
      }
    }
  }

  /** A replacement gives a page to a second virtual page. */
  lemma ReplacementShares(translation: map<Target, nat>, pages: seq<int>, target: Target, page: nat)
    requires Given(translation, pages) && target !in translation && page < |pages| && pages[page] != FREE
    ensures Given(translation[target := page], pages) && !Injective(translation[target := page])
  {
    var after := translation[target := page];
    var s :| s in translation && translation[s] == page;
    assert after[s] == after[target];
    forall f | 0 <= f < |pages| && pages[f] != FREE
      ensures exists t :: t in after && after[t] == f
    {
      var t :| t in translation && translation[t] == f;
      assert after[t] == f;
    }
  }

  lemma AssignKeeps(translation: map<Target, nat>, pages: seq<int>, target: Target, page: nat)
    requires Assigned(translation, pages) && Injective(translation) && page < |pages| && pages[page] == FREE
    ensures Assigned(translation[target := page], pages[page := target.core])
    ensures Injective(translation[target := page])
    ensures FreeCount(pages[page := target.core]) == FreeCount(pages) - 1
  {
    AfterAssign(pages, page, target.core);
  }

  /** The k-th page from `start` on, round the end of the memory. */
  function Around(start: nat, k: nat, n: nat): (page: nat)
    requires start < n && k < n
    ensures page < n
  {
    if start + k < n then start + k else start + k - n
  }

  /** The first free page from `start` on, round the end of the memory. */
  ghost predicate IsNextFree(pages: seq<int>, start: nat, page: nat)
    requires start < |pages|
  {
    exists k :: 0 <= k < |pages| && page == Around(start, k, |pages|) && pages[page] == -1
      && forall j :: 0 <= j < k ==> pages[Around(start, j, |pages|)] != -1
  }

  class Allocator {
    const freePages: array<int>
    var remaining: nat
    var translation: map<Target, nat>
    var replacements: nat

    ghost predicate Valid()
      reads this, freePages
    {
      && freePages.Length > 0
      && remaining == FreeCount(freePages[..])
      && Assigned(translation, freePages[..]) && Given(translation, freePages[..])
      && (replacements == 0 <==> Injective(translation))
      && (replacements > 0 ==> remaining == 0)
    }

    constructor (pages: nat)
      requires pages > 0
      ensures Valid() && remaining == pages && translation == map[] && replacements == 0
      ensures freePages.Length == pages && forall i :: 0 <= i < pages ==> freePages[i] == -1
    {
      freePages := new int[pages](_ => FREE);
      remaining, translation, replacements := pages, map[], 0;
      new;
      AllFree(freePages[..]);
    }

    /** From a page that is taken on, round the end of the memory, to the next free one: it is reached before
        the search is back where it has started. */
    method Probe(start: nat) returns (page: nat)
      requires start < freePages.Length && freePages[start] != FREE && FreeCount(freePages[..]) > 0
      ensures page < freePages.Length && freePages[page] == FREE && IsNextFree(freePages[..], start, page)
    {
      ghost var n := freePages.Length;
      ghost var f := SomeIsFree(freePages[..]);
      ghost var distance := if f > start then f - start else f + n - start;
      ghost var steps := 1;
      page := if start + 1 == freePages.Length then 0 else start + 1;
      while page != start && freePages[page] != FREE
        invariant 1 <= steps <= distance < n && page == Around(start, steps, n)
        invariant forall j :: 0 <= j < steps ==> freePages[Around(start, j, n)] != FREE
        decreases distance - steps
      {
        page := if page + 1 == freePages.Length then 0 else page + 1;
        steps := steps + 1;
      }
      assert freePages[Around(start, steps, n)] == FREE;
    }

    /** A free page: the random one, or the next free one after it. */
    method FindPage(random: nat) returns (page: nat)
      requires freePages.Length > 0 && FreeCount(freePages[..]) > 0
      ensures page < freePages.Length && freePages[page] == FREE
      ensures IsNextFree(freePages[..], random % freePages.Length, page)
    {
      page := random % freePages.Length;
      if freePages[page] != FREE {
        page := Probe(page);
      } else {
        assert page == Around(page, 0, freePages.Length);
      }
    }

    method Assign(target: Target, page: nat)
      requires Valid() && target !in translation && page < freePages.Length && freePages[page] == FREE
      requires replacements == 0
      modifies this`translation, this`remaining, freePages
      ensures Valid() && remaining == old(remaining) - 1 && translation == old(translation)[target := page]
      ensures freePages[..] == old(freePages[..])[page := target.core]
    {
      AssignKeeps(translation, freePages[..], target, page);
      GivenKeeps(translation, freePages[..], target, page);
      ghost var before := freePages[..];
      freePages[page] := target.core;
      assert freePages[..] == before[page := target.core];
      translation := translation[target := page];
      remaining := remaining - 1;
    }

    /** The physical page of a virtual one.  When all pages are taken, one of them is shared. */
    method PageOf(target: Target, random: nat) returns (page: nat)
      requires Valid()
      modifies this, freePages
      ensures Valid() && page < freePages.Length && translation == old(translation)[target := page]
      ensures target in old(translation) ==> translation == old(translation)
      ensures remaining == old(remaining) - if target !in old(translation) && old(remaining) > 0 then 1 else 0
      ensures replacements == old(replacements) + if target !in old(translation) && old(remaining) == 0 then 1 else 0
      ensures target !in old(translation) ==>
                if old(remaining) == 0 then page == random % freePages.Length
                else IsNextFree(old(freePages[..]), random % freePages.Length, page)
      ensures freePages[..] == if target in old(translation) || old(remaining) == 0 then old(freePages[..])
                               else old(freePages[..])[page := target.core]
    {
      if target in translation {
        return translation[target];
      }
      if remaining == 0 {
        page := random % freePages.Length;
        Replace(target, page);
      } else {
        page := FindPage(random);
        Assign(target, page);
      }
    }

    method Replace(target: Target, page: nat)
      requires Valid() && target !in translation && remaining == 0 && page < freePages.Length
      modifies this`translation, this`replacements
      ensures Valid() && translation == old(translation)[target := page] && replacements == old(replacements) + 1
    {
      NoneIsFree(freePages[..], page);
      assert freePages[page] != FREE;
      ReplacementShares(translation, freePages[..], target, page);
      replacements := replacements + 1;
      translation := translation[target := page];
    }

    /** The physical address: the page keeps its translation, and the offset is kept.  Different virtual
        pages keep different physical pages exactly if the page is known or a physical one remains. */
    method Translate(addr: nat, core: nat, random: nat) returns (physical: nat)
      requires Valid()
      modifies this, freePages
      ensures Valid()
      ensures
        var target := Target(core, addr / 4096);
        && target in translation && translation[target] < freePages.Length
        && physical % 4096 == addr % 4096 && physical / 4096 == translation[target]
        && translation == old(translation)[target := translation[target]]
        && (target in old(translation) ==> translation == old(translation))
        && remaining == old(remaining) - (if target !in old(translation) && old(remaining) > 0 then 1 else 0)
        && replacements == old(replacements) + (if target !in old(translation) && old(remaining) == 0 then 1 else 0)
        && (Injective(translation) <==>
            Injective(old(translation)) && (target in old(translation) || old(remaining) > 0))
    {
      hide Assigned, Given, FreeCount, IsNextFree;
      var page := PageOf(Target(core, addr / PAGE_SIZE), random);
      physical := page * PAGE_SIZE + addr % PAGE_SIZE;
    }
  }
}
