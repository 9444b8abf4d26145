/**
 * src/lib/catalogWatcher.ts: the watcher that keeps the catalog's list of
 * thread links.
 *
 * A pass collects `{url, container}` for every child whose serializer yields
 * a truthy URL, in child order, and compares each such URL with the entry of
 * the OLD list at the CHILD's index (not at the entry's place in the new,
 * compacted list). Only a detected difference replaces the list and calls the
 * listeners.
 */
module CatalogWatching {
  import opened Wrappers
  import opened Text
  import opened Serializers

  /** A child element of the catalog container. */
  type ChildId = nat

  /** A subscribed listener callback. */
  type ListenerId = nat

  datatype ThreadLink = ThreadLink(url: string, container: ChildId)

  /** The thread links of the children with a truthy URL, in child order. */
  function NewThreads(serializer: ChildId -> Option<string>, children: seq<ChildId>): (r: seq<ThreadLink>)
    ensures |r| <= |children|
  {
    if children == [] then []
    else
      var before := NewThreads(serializer, children[..|children| - 1]);
      var c := children[|children| - 1];
      if Truthy(serializer(c)) then before + [ThreadLink(serializer(c).value, c)] else before
  }

  /** `threads[i]?.url !== url` for a child `i` with a truthy URL: a missing entry differs too. */
  predicate DiffersAt(serializer: ChildId -> Option<string>, threads: seq<ThreadLink>, children: seq<ChildId>, i: nat)
    requires i < |children|
    ensures DiffersAt(serializer, threads, children, i) ==> Truthy(serializer(children[i]))
    ensures i >= |threads| ==> (DiffersAt(serializer, threads, children, i) <==> Truthy(serializer(children[i])))
  {
    Truthy(serializer(children[i])) && (i >= |threads| || threads[i].url != serializer(children[i]).value)
  }

  /** The pass sets `hasChanges`. */
  predicate Changed(serializer: ChildId -> Option<string>, threads: seq<ThreadLink>, children: seq<ChildId>)
    ensures threads == [] ==>
              (Changed(serializer, threads, children) <==> exists i :: 0 <= i < |children| && Truthy(serializer(children[i])))
  {
    assert threads == [] ==> forall i :: 0 <= i < |children| ==>
             (DiffersAt(serializer, threads, children, i) <==> Truthy(serializer(children[i])));
    exists i :: 0 <= i < |children| && DiffersAt(serializer, threads, children, i)
  }

  /** Every link of the new list carries its child's truthy URL. */
  lemma {:induction false} NewThreadsAreUrlChildren(serializer: ChildId -> Option<string>, children: seq<ChildId>)
    ensures forall t :: t in NewThreads(serializer, children) ==>
              t.container in children && Truthy(serializer(t.container)) && serializer(t.container).value == t.url
  {
    if children != [] {
      NewThreadsAreUrlChildren(serializer, children[..|children| - 1]);
    }
  }

  /** One child gives its link when its URL is truthy, and nothing otherwise. */
  lemma NewThreadsOfOne(serializer: ChildId -> Option<string>, c: ChildId)
    ensures NewThreads(serializer, [c]) == if Truthy(serializer(c)) then [ThreadLink(serializer(c).value, c)] else []
  {
    assert [c][..0] == [];
  }

  /**
   * The links of consecutive runs of children are the links of each run, one
   * after the other: with `NewThreadsOfOne`, every child with a truthy URL
   * contributes its link once, at its place in child order.
   */
  lemma {:induction false} NewThreadsAppend(serializer: ChildId -> Option<string>, a: seq<ChildId>, b: seq<ChildId>)
    ensures NewThreads(serializer, a + b) == NewThreads(serializer, a) + NewThreads(serializer, b)
    decreases |b|
  {
    var ab := a + b;
    if b == [] {
      assert ab == a;
    } else {
      var init := b[..|b| - 1];
      assert ab[..|ab| - 1] == a + init;
      assert ab[|ab| - 1] == b[|b| - 1];
      NewThreadsAppend(serializer, a, init);
    }
  }

  /** Every child with a truthy URL has its link in the new list, after the links of the children before it. */
  lemma NewThreadsHasUrlChild(serializer: ChildId -> Option<string>, children: seq<ChildId>, i: nat)
    requires i < |children| && Truthy(serializer(children[i]))
    ensures var r, link := NewThreads(serializer, children), ThreadLink(serializer(children[i]).value, children[i]);
            var before := NewThreads(serializer, children[..i]);
            |before| < |r| && r[..|before| + 1] == before + [link]
  {
    var c := children[i];
    var link := ThreadLink(serializer(c).value, c);
    var front, back := children[..i], children[i + 1..];
    assert children == front + [c] + back;
    NewThreadsAppend(serializer, front + [c], back);
    NewThreadsAppend(serializer, front, [c]);
    NewThreadsOfOne(serializer, c);
    var before := NewThreads(serializer, front);
    var r := NewThreads(serializer, children);
    assert r == before + [link] + NewThreads(serializer, back);
    assert r[..|before| + 1] == before + [link];
  }

  /** When every child yields a URL, the new list is one link per child, in child order. */
  lemma {:induction false} NewThreadsOfUrlChildren(serializer: ChildId -> Option<string>, children: seq<ChildId>)
    requires forall i :: 0 <= i < |children| ==> Truthy(serializer(children[i]))
    ensures |NewThreads(serializer, children)| == |children|
    ensures forall i :: 0 <= i < |children| ==>
              serializer(children[i]) == Some(NewThreads(serializer, children)[i].url)
              && NewThreads(serializer, children)[i].container == children[i]
  {
    if children != [] {
      NewThreadsOfUrlChildren(serializer, children[..|children| - 1]);
    }
  }

  /** With a URL for every child, a pass right after a change finds nothing to change. */
  lemma RepeatPassIsQuiet(serializer: ChildId -> Option<string>, children: seq<ChildId>)
    requires forall i :: 0 <= i < |children| ==> Truthy(serializer(children[i]))
    ensures !Changed(serializer, NewThreads(serializer, children), children)
  {
    NewThreadsOfUrlChildren(serializer, children);
  }

  /**
   * Children removed from the end go unnoticed: the shorter list of children
   * reports no change, so the longer, stale list is kept.
   */
  lemma TruncationIsMissed(serializer: ChildId -> Option<string>, children: seq<ChildId>, k: nat)
    requires k <= |children|
    requires forall i :: 0 <= i < |children| ==> Truthy(serializer(children[i]))
    ensures !Changed(serializer, NewThreads(serializer, children), children[..k])
  {
    NewThreadsOfUrlChildren(serializer, children);
  }

  /** Trailing children without a URL add nothing to the new list. */
  lemma {:induction false} NewThreadsIgnoresTail(serializer: ChildId -> Option<string>, children: seq<ChildId>, k: nat)
    requires k <= |children|
    requires forall i :: k <= i < |children| ==> !Truthy(serializer(children[i]))
    ensures NewThreads(serializer, children) == NewThreads(serializer, children[..k])
    decreases |children|
  {
    if |children| > k {
      var init := children[..|children| - 1];
      assert init[..k] == children[..k];
      NewThreadsIgnoresTail(serializer, init, k);
    } else {
      assert children[..k] == children;
    }
  }

  /** A child without a URL leaves the new list shorter than the children. */
  lemma {:induction false} NewThreadsShorter(serializer: ChildId -> Option<string>, children: seq<ChildId>, a: nat)
    requires a < |children| && !Truthy(serializer(children[a]))
    ensures |NewThreads(serializer, children)| < |children|
  {
    var init := children[..|children| - 1];
    if a < |children| - 1 {
      assert init[a] == children[a];
      NewThreadsShorter(serializer, init, a);
    }
  }

  /** The last child with a URL, at or after a given one. */
  lemma {:induction false} LastUrlChild(serializer: ChildId -> Option<string>, children: seq<ChildId>, b: nat)
    returns (last: nat)
    requires b < |children| && Truthy(serializer(children[b]))
    ensures b <= last < |children| && Truthy(serializer(children[last]))
    ensures forall i :: last < i < |children| ==> !Truthy(serializer(children[i]))
    decreases |children| - b
  {
    var later := FirstUrlAfter(serializer, children, b + 1);
    if later == |children| {
      last := b;
    } else {
      last := LastUrlChild(serializer, children, later);
    }
  }

  /** The first child with a URL at or after `from`, or the number of children. */
  function FirstUrlAfter(serializer: ChildId -> Option<string>, children: seq<ChildId>, from: nat): (r: nat)
    requires from <= |children|
    ensures from <= r <= |children|
    ensures r < |children| ==> Truthy(serializer(children[r]))
    ensures forall i :: from <= i < r ==> !Truthy(serializer(children[i]))
    decreases |children| - from
  {
    if from == |children| || Truthy(serializer(children[from])) then from else FirstUrlAfter(serializer, children, from + 1)
  }

  /** A child with a URL beyond the end of the list always differs. */
  lemma ChangedPastEnd(serializer: ChildId -> Option<string>, threads: seq<ThreadLink>, children: seq<ChildId>, i: nat)
    requires |threads| <= i < |children| && Truthy(serializer(children[i]))
    ensures Changed(serializer, threads, children)
  {
    assert DiffersAt(serializer, threads, children, i);
  }

  /** A child without a URL before the last child with one: the new list ends before that last child. */
  lemma GapShortensList(serializer: ChildId -> Option<string>, children: seq<ChildId>, a: nat, last: nat)
    requires a <= last < |children| && !Truthy(serializer(children[a]))
    requires forall i :: last < i < |children| ==> !Truthy(serializer(children[i]))
    ensures |NewThreads(serializer, children)| <= last
  {
    var upTo := children[..last + 1];
    NewThreadsIgnoresTail(serializer, children, last + 1);
    assert upTo[a] == children[a];
    NewThreadsShorter(serializer, upTo, a);
  }

  /**
   * A child without a URL in front of a child with one makes every pass over
   * the same children report a change, even right after the list was
   * replaced: the last child with a URL sits past the end of the compacted
   * list.
   */
  lemma GapAlwaysChanges(serializer: ChildId -> Option<string>, children: seq<ChildId>, a: nat, b: nat)
    requires a < b < |children|
    requires !Truthy(serializer(children[a])) && Truthy(serializer(children[b]))
    ensures Changed(serializer, NewThreads(serializer, children), children)
  {
    var last := LastUrlChild(serializer, children, b);
    GapShortensList(serializer, children, a, last);
    ChangedPastEnd(serializer, NewThreads(serializer, children), children, last);
  }

  /** src/lib/catalogWatcher.ts: a watcher over the catalog container. */
  class CatalogWatcher {
    /** The site's catalog serializer: the thread URL of a child, or null. */
    const serializer: ChildId -> Option<string>
    var listeners: set<ListenerId>
    var threads: seq<ThreadLink>

    /** The constructor runs a first pass over the container's current children. */
    constructor(serializer: ChildId -> Option<string>, children: seq<ChildId>)
      ensures this.serializer == serializer && listeners == {}
      ensures threads == if Changed(serializer, [], children) then NewThreads(serializer, children) else []
    {
      this.serializer := serializer;
      listeners := {};
      threads := [];
      new;
      var _ := Serialize(children);
    }

    /** `destroy`: the listeners are dropped (disconnecting the observer is not modelled). */
    method Destroy()
      modifies this
      ensures listeners == {} && threads == old(threads)
    {
      listeners := {};
    }

    /** `subscribe`. */
    method Subscribe(l: ListenerId)
      modifies this
      ensures listeners == old(listeners) + {l} && threads == old(threads)
    {
      listeners := listeners + {l};
    }

    /** `unsubscribe`, also what the function `subscribe` returns does. */
    method Unsubscribe(l: ListenerId)
      modifies this
      ensures listeners == old(listeners) - {l} && threads == old(threads)
    {
      listeners := listeners - {l};
    }

    /** `serialize`: one pass; returns the listeners called (each with the new `threads`). */
    method Serialize(children: seq<ChildId>) returns (notified: set<ListenerId>)
      modifies this
      ensures var changed := Changed(serializer, old(threads), children);
              threads == (if changed then NewThreads(serializer, children) else old(threads))
              && notified == (if changed then old(listeners) else {})
      ensures listeners == old(listeners)
    {
      var newThreads: seq<ThreadLink> := [];
      var hasChanges := false;
      var i := 0;
      while i < |children|
        invariant 0 <= i <= |children|
        invariant newThreads == NewThreads(serializer, children[..i])
        invariant hasChanges <==> exists k :: 0 <= k < i && DiffersAt(serializer, threads, children, k)
        invariant threads == old(threads) && listeners == old(listeners)
      {
        assert children[..i + 1][..i] == children[..i];
        var container := children[i];
        var url := serializer(container);
        if Truthy(url) {
          newThreads := newThreads + [ThreadLink(url.value, container)];
          if i >= |threads| || threads[i].url != url.value {
            hasChanges := true;
          }
        }
        assert DiffersAt(serializer, threads, children, i) <==> Truthy(url) && (i >= |threads| || threads[i].url != url.value);
        i := i + 1;
      }
      assert children[..|children|] == children;
      if hasChanges {
        threads := newThreads;
        notified := listeners;
      } else {
        notified := {};
      }
    }
  }
}
