/**
 Least recently used: what one set of a cache must hold after any history of accesses, and two
 implementations that keep exactly that: access times (lab 1) and ranks (lab 4).
 */
module Recency {
  import opened Common
  import C = Cache

  /** An access to the set, at a time. */
  datatype Event = Event(tag: nat, time: int)

  /** The number of the last access to a tag, or -1. */
  function LastUse(history: seq<Event>, tag: nat): (k: int)
    ensures -1 <= k < |history|
    ensures k >= 0 ==> history[k].tag == tag
  {
    if history == [] then -1
    else if history[|history| - 1].tag == tag then |history| - 1
    else LastUse(history[..|history| - 1], tag)
  }

  /** The set holds the most recently used tags: as many as fit, or all there are. */
  ghost predicate IsLruContent(history: seq<Event>, ways: nat, content: set<nat>) {
    && |content| <= ways
    && (forall t :: t in content ==> LastUse(history, t) >= 0)
    && (|content| < ways ==> forall t :: LastUse(history, t) >= 0 ==> t in content)
    && (forall t, u :: t in content && u !in content ==> LastUse(history, u) < LastUse(history, t))
  }

  lemma {:induction false} SmallerSetMisses(a: set<nat>, b: set<nat>, x: nat) returns (y: nat)
    requires |a| <= |b| && x in a && x !in b
    ensures y in b && y !in a
    decreases |a|
  {
    if exists z :: z in a && z in b {
      var z :| z in a && z in b;
      y := SmallerSetMisses(a - {z}, b - {z}, x);
    } else {
      assert a != {};
      assert |b| > 0 by {
        assert |a - {x}| == |a| - 1;
      }
      y :| y in b;
    }
  }

  /** Inclusion: a set with more ways holds everything that one with fewer ways holds. */
  lemma LruInclusion(history: seq<Event>, few: nat, many: nat, a: set<nat>, b: set<nat>)
    requires few <= many && IsLruContent(history, few, a) && IsLruContent(history, many, b)
    ensures a <= b
  {
    forall t | t in a
      ensures t in b
    {
      if t !in b {
        var u := SmallerSetMisses(a, b, t);
      }
    }
  }

  /** So the content is determined by the history, whatever the implementation. */
  lemma LruUnique(history: seq<Event>, ways: nat, a: set<nat>, b: set<nat>)
    requires IsLruContent(history, ways, a) && IsLruContent(history, ways, b)
    ensures a == b
  {
    LruInclusion(history, ways, ways, a, b);
    LruInclusion(history, ways, ways, b, a);
  }

  lemma LastUsePush(history: seq<Event>, e: Event, tag: nat)
    ensures LastUse(history + [e], tag) == if tag == e.tag then |history| else LastUse(history, tag)
  {
    assert (history + [e])[..|history|] == history;
  }

  /** A hit changes the order but not the content. */
  lemma LruHit(history: seq<Event>, ways: nat, content: set<nat>, e: Event)
    requires IsLruContent(history, ways, content) && e.tag in content
    ensures IsLruContent(history + [e], ways, content)
  {
    forall t
      ensures LastUse(history + [e], t) == if t == e.tag then |history| else LastUse(history, t)
    {
      LastUsePush(history, e, t);
    }
  }

  /** A miss while there is room adds the tag. */
  lemma LruFill(history: seq<Event>, ways: nat, content: set<nat>, e: Event)
    requires IsLruContent(history, ways, content) && e.tag !in content && |content| < ways
    ensures IsLruContent(history + [e], ways, content + {e.tag})
  {
    forall t
      ensures LastUse(history + [e], t) == if t == e.tag then |history| else LastUse(history, t)
    {
      LastUsePush(history, e, t);
    }
  }

  lemma SwapSize(content: set<nat>, out: nat, in_: nat)
    requires out in content && in_ !in content
    ensures |content - {out} + {in_}| == |content|
  {
    assert |content - {out}| == |content| - 1;
  }

  /** The least recently used tag of the content, when it is the only one. */
  ghost predicate IsVictim(history: seq<Event>, content: set<nat>, victim: nat) {
    victim in content && forall t :: t in content && t != victim ==> LastUse(history, victim) < LastUse(history, t)
  }

  /** A miss in a full set replaces the tag that has not been used for longest. */
  lemma LruReplace(history: seq<Event>, ways: nat, content: set<nat>, e: Event, victim: nat)
    requires IsLruContent(history, ways, content) && e.tag !in content && |content| == ways
    requires IsVictim(history, content, victim)
    ensures IsLruContent(history + [e], ways, content - {victim} + {e.tag})
  {
    SwapSize(content, victim, e.tag);
    forall t
      ensures LastUse(history + [e], t) == if t == e.tag then |history| else LastUse(history, t)
    {
      LastUsePush(history, e, t);
    }
  }

  // ---- the content of a set ----

  /** A way of either cache: its tag, or nothing. */
  function Content(ways: seq<Option<nat>>): set<nat> {
    if ways == [] then {} else
      match ways[|ways| - 1]
      case None => Content(ways[..|ways| - 1])
      case Some(tag) => Content(ways[..|ways| - 1]) + {tag}
  }

  /** No tag is in two ways. */
  ghost predicate Unique(ways: seq<Option<nat>>) {
    forall i, j :: 0 <= i < j < |ways| && ways[i].Some? ==> ways[i] != ways[j]
  }

  lemma {:induction false} InContent(ways: seq<Option<nat>>, tag: nat)
    ensures tag in Content(ways) <==> Some(tag) in ways
  {
    if ways != [] {
      InContent(ways[..|ways| - 1], tag);
      assert ways == ways[..|ways| - 1] + [ways[|ways| - 1]];
    }
  }

  lemma {:induction false} ContentSize(ways: seq<Option<nat>>)
    requires Unique(ways)
    ensures |Content(ways)| <= |ways|
    ensures |Content(ways)| == |ways| <==> None !in ways
  {
    if ways != [] {
      var last := |ways| - 1;
      ContentSize(ways[..last]);
      assert ways == ways[..last] + [ways[last]];
      if ways[last].Some? {
        InContent(ways[..last], ways[last].value);
      }
    }
  }

  /** Filling a way: what was there leaves, and the tag enters. */
  lemma ContentUpdate(ways: seq<Option<nat>>, i: nat, tag: nat)
    requires Unique(ways) && i < |ways| && tag !in Content(ways)
    ensures Unique(ways[i := Some(tag)])
    ensures Content(ways[i := Some(tag)]) ==
              (if ways[i].Some? then Content(ways) - {ways[i].value} else Content(ways)) + {tag}
  {
    var after := ways[i := Some(tag)];
    InContent(ways, tag);
    forall t
      ensures t in Content(after) <==> Some(t) in after
      ensures t in Content(ways) <==> Some(t) in ways
    {
      InContent(after, t);
      InContent(ways, t);
    }
    forall t | Some(t) in ways && ways[i] != Some(t)
      ensures Some(t) in after
    {
      var k :| 0 <= k < |ways| && ways[k] == Some(t);
      assert after[k] == Some(t);
    }
    assert after[i] == Some(tag);
  }

  // ---- access times ----

  function TagsOf(ways: seq<C.Block>): (tags: seq<Option<nat>>)
    ensures |tags| == |ways|
    ensures forall i :: 0 <= i < |ways| ==> tags[i] == if ways[i].valid then Some(ways[i].tag) else None
  {
    seq(|ways|, i requires 0 <= i < |ways| => if ways[i].valid then Some(ways[i].tag) else None)
  }

  ghost predicate Timed(history: seq<Event>, now: int) {
    && (forall i, j :: 0 <= i < j < |history| ==> history[i].time < history[j].time)
    && (forall i :: 0 <= i < |history| ==> history[i].time <= now)
  }

  /** Every valid way has the time of the last access to its tag. */
  ghost predicate Stamped(ways: seq<C.Block>, history: seq<Event>) {
    forall i :: 0 <= i < |ways| && ways[i].valid ==>
      LastUse(history, ways[i].tag) >= 0 && ways[i].lastAccess == history[LastUse(history, ways[i].tag)].time
  }

  /** The set of a cache with access times after a history. */
  ghost predicate KeepsTimes(ways: seq<C.Block>, history: seq<Event>, now: int) {
    && Timed(history, now) && Stamped(ways, history)
    && Unique(TagsOf(ways)) && IsLruContent(history, |ways|, Content(TagsOf(ways)))
  }

  /** An empty set keeps the empty history. */
  lemma EmptyKeepsTimes(ways: seq<C.Block>, now: int)
    requires forall i :: 0 <= i < |ways| ==> !ways[i].valid
    ensures KeepsTimes(ways, [], now)
  {
    forall t
      ensures t !in Content(TagsOf(ways))
    {
      InContent(TagsOf(ways), t);
    }
    assert Content(TagsOf(ways)) == {};
  }

  lemma StampedPush(ways: seq<C.Block>, history: seq<Event>, i: nat, b: C.Block, e: Event)
    requires Stamped(ways, history) && i < |ways| && b.valid && b.tag == e.tag && b.lastAccess == e.time
    requires forall j :: 0 <= j < |ways| && j != i && ways[j].valid ==> ways[j].tag != e.tag
    ensures Stamped(ways[i := b], history + [e])
  {
    var after := ways[i := b];
    forall j | 0 <= j < |after| && after[j].valid
      ensures LastUse(history + [e], after[j].tag) >= 0
      ensures after[j].lastAccess == (history + [e])[LastUse(history + [e], after[j].tag)].time
    {
      LastUsePush(history, e, after[j].tag);
    }
  }

  lemma HitOrNot(ways: seq<C.Block>, tag: nat)
    ensures C.FindHit(ways, tag) < |ways| <==> tag in Content(TagsOf(ways))
  {
    var tags := TagsOf(ways);
    InContent(tags, tag);
    var i := C.FindHit(ways, tag);
    if i < |ways| {
      assert tags[i] == Some(tag);
    }
  }

  lemma OlderIsUsedBefore(ways: seq<C.Block>, history: seq<Event>, now: int, v: nat, i: nat)
    requires Timed(history, now) && Stamped(ways, history)
    requires v < |ways| && i < |ways| && ways[v].valid && ways[i].valid
    requires ways[v].lastAccess <= ways[i].lastAccess && ways[v].tag != ways[i].tag
    ensures LastUse(history, ways[v].tag) < LastUse(history, ways[i].tag)
  {
    assert history[LastUse(history, ways[v].tag)].time <= history[LastUse(history, ways[i].tag)].time;
  }

  /** The way with the smallest access time holds the least recently used tag. */
  lemma OldestIsVictim(ways: seq<C.Block>, history: seq<Event>, now: int, v: nat)
    requires KeepsTimes(ways, history, now) && v < |ways| && forall i :: 0 <= i < |ways| ==> ways[i].valid
    requires forall i :: 0 <= i < |ways| ==> ways[v].lastAccess <= ways[i].lastAccess
    ensures IsVictim(history, Content(TagsOf(ways)), ways[v].tag)
  {
    var tags := TagsOf(ways);
    InContent(tags, ways[v].tag);
    assert tags[v] == Some(ways[v].tag);
    forall t | t in Content(tags) && t != ways[v].tag
      ensures LastUse(history, ways[v].tag) < LastUse(history, t)
    {
      InContent(tags, t);
      var i :| 0 <= i < |tags| && tags[i] == Some(t);
      OlderIsUsedBefore(ways, history, now, v, i);
    }
  }

  lemma TimedPush(history: seq<Event>, before: int, e: Event)
    requires Timed(history, before) && before < e.time
    ensures Timed(history + [e], e.time)
  {
  }

  lemma KeepsTimesHit(ways: seq<C.Block>, history: seq<Event>, before: int, tag: nat, now: int, i: nat)
    requires KeepsTimes(ways, history, before) && before < now && i < |ways| && C.Holds(ways[i], tag)
    ensures KeepsTimes(ways[i := ways[i].(lastAccess := now)], history + [Event(tag, now)], now)
  {
    var b := ways[i].(lastAccess := now);
    var tags := TagsOf(ways);
    assert tags[i] == Some(tag);
    assert TagsOf(ways[i := b]) == tags;
    InContent(tags, tag);
    LruHit(history, |ways|, Content(tags), Event(tag, now));
    forall j | 0 <= j < |ways| && j != i && ways[j].valid
      ensures ways[j].tag != tag
    {
      assert tags[j] == Some(ways[j].tag);
    }
    StampedPush(ways, history, i, b, Event(tag, now));
    TimedPush(history, before, Event(tag, now));
  }

  /** A miss puts the tag into a way that is free or, when none is, into that of the oldest time. */
  lemma KeepsTimesMiss(ways: seq<C.Block>, history: seq<Event>, before: int, tag: nat, now: int,
                       k: nat, b: C.Block)
    requires KeepsTimes(ways, history, before) && before < now && tag !in Content(TagsOf(ways))
    requires k < |ways| && b.valid && b.tag == tag && b.lastAccess == now
    requires ways[k].valid ==> forall i :: 0 <= i < |ways| ==> ways[i].valid && ways[k].lastAccess <= ways[i].lastAccess
    ensures KeepsTimes(ways[k := b], history + [Event(tag, now)], now)
  {
    var e := Event(tag, now);
    var tags := TagsOf(ways);
    assert TagsOf(ways[k := b]) == tags[k := Some(tag)];
    ContentUpdate(tags, k, tag);
    InContent(tags, tag);
    ContentSize(tags);
    forall j | 0 <= j < |ways| && ways[j].valid
      ensures ways[j].tag != tag
    {
      assert tags[j] == Some(ways[j].tag);
    }
    StampedPush(ways, history, k, b, e);
    TimedPush(history, before, e);
    if ways[k].valid {
      OldestIsVictim(ways, history, before, k);
      LruReplace(history, |ways|, Content(tags), e, ways[k].tag);
    } else {
      assert tags[k] == None;
      LruFill(history, |ways|, Content(tags), e);
    }
  }

  /** The LRU policy with access times (evict the least, insert as the most recently used) keeps what is
      least recently used by definition; it hits exactly when the tag is in there. */
  lemma TimesRefineLru(ways: seq<C.Block>, history: seq<Event>, before: int, tag: nat, now: int,
                       counter: int)
    requires KeepsTimes(ways, history, before) && ways != [] && before < now
    ensures
      var r := C.AccessSet(C.LruMru, ways, tag, now, counter);
      && KeepsTimes(r.ways, history + [Event(tag, now)], now)
      && (r.hit <==> tag in Content(TagsOf(ways)))
  {
    HitOrNot(ways, tag);
    var i := C.FindHit(ways, tag);
    if i < |ways| {
      KeepsTimesHit(ways, history, before, tag, now, i);
    } else {
      var free := C.FindInvalid(ways);
      var k := if free < |ways| then free else C.FindVictim(C.LruMru, ways);
      KeepsTimesMiss(ways, history, before, tag, now, k, C.AccessSet(C.LruMru, ways, tag, now, counter).ways[k]);
    }
  }

  lemma KeepsTimesLater(ways: seq<C.Block>, history: seq<Event>, then_: int, now: int)
    requires KeepsTimes(ways, history, then_) && Timed(history, now)
    ensures KeepsTimes(ways, history, now)
  {
  }
}
