/**
 * src/lib/hooks.ts: the module-level handler registries behind `useKey`,
 * `useKeyUp` and `useGesture`, and the row counter of `useItemsPerRow`.
 *
 * A registry maps a key (an event type and a shortcut id, or a gesture name)
 * to the list of handlers registered under it, oldest first; the newest one
 * is the one that runs. Handlers are opaque ids. The effects that register
 * and clean up become explicit calls of `UseKey`, `UseGesture` and `Cleanup`.
 */
module Hooks {
  import opened Wrappers
  import opened Text
  import opened Utils
  import opened Collections

  /** A registered handler or callback. */
  type HandlerId = nat

  /** The list registered under `key`; a key never registered has none. */
  function ListOf<K>(lists: map<K, seq<HandlerId>>, key: K): seq<HandlerId> {
    if key in lists then lists[key] else []
  }

  /** The handler that runs for `key`: the last one of a non-empty list. */
  function LastOf<K>(lists: map<K, seq<HandlerId>>, key: K): (r: Option<HandlerId>)
    ensures r.None? <==> ListOf(lists, key) == []
    ensures r.Some? ==> r.value in ListOf(lists, key)
  {
    var l := ListOf(lists, key);
    if |l| > 0 then Some(l[|l| - 1]) else None
  }

  /** Registration: the list is created when absent and the handler is pushed onto it. */
  function Registered<K>(lists: map<K, seq<HandlerId>>, key: K, h: HandlerId): (r: map<K, seq<HandlerId>>)
    ensures r.Keys == lists.Keys + {key}
    ensures forall k :: k in lists && k != key ==> r[k] == lists[k]
  {
    lists[key := ListOf(lists, key) + [h]]
  }

  /** The cleanup: the first occurrence of the handler is spliced out; the list stays in the map. */
  function Cleaned<K>(lists: map<K, seq<HandlerId>>, key: K, h: HandlerId): (r: map<K, seq<HandlerId>>)
    ensures r.Keys == lists.Keys
    ensures forall k :: k in lists && k != key ==> r[k] == lists[k]
  {
    if key in lists then lists[key := RemoveFirst(lists[key], h)] else lists
  }

  /** The handler registered last is the one that runs, and no other key's handler changes. */
  lemma LastRegisteredWins<K>(lists: map<K, seq<HandlerId>>, key: K, h: HandlerId)
    ensures LastOf(Registered(lists, key, h), key) == Some(h)
    ensures forall k :: k != key ==> LastOf(Registered(lists, key, h), k) == LastOf(lists, k)
  {
  }

  /**
   * Cleaning up right after registering gives back the lists as they were,
   * except that a list created by the registration stays, empty.
   */
  lemma CleanupUndoesRegister<K>(lists: map<K, seq<HandlerId>>, key: K, h: HandlerId)
    requires h !in ListOf(lists, key)
    ensures Cleaned(Registered(lists, key, h), key, h) == lists[key := ListOf(lists, key)]
    ensures key in lists ==> Cleaned(Registered(lists, key, h), key, h) == lists
    ensures forall k :: LastOf(Cleaned(Registered(lists, key, h), key, h), k) == LastOf(lists, k)
  {
    RemoveFirstOfSnoc(ListOf(lists, key), h);
  }

  /**
   * The cleanup removes one occurrence of its own handler and nothing else:
   * the others keep their order around the spliced position.
   */
  lemma CleanupRemovesOne<K>(lists: map<K, seq<HandlerId>>, key: K, h: HandlerId)
    requires key in lists && h in lists[key]
    ensures var s, r := lists[key], Cleaned(lists, key, h)[key];
            multiset(r) == multiset(s) - multiset{h}
            && exists i :: 0 <= i < |s| && s[i] == h && h !in s[..i] && r == s[..i] + s[i + 1..]
  {
    RemoveFirstMultiset(lists[key], h);
    var i := IndexOf(lists[key], h);
    assert Cleaned(lists, key, h)[key] == lists[key][..i] + lists[key][i + 1..];
  }

  /** A cleanup of a handler that is not in the list changes nothing. */
  lemma CleanupOfUnknownHandler<K>(lists: map<K, seq<HandlerId>>, key: K, h: HandlerId)
    requires h !in ListOf(lists, key)
    ensures Cleaned(lists, key, h) == lists
  {
    if key in lists {
      RemoveFirstMultiset(lists[key], h);
    }
  }

  /** The node names of the targets whose key events are never dispatched. */
  const Interactive: set<string> := {"INPUT", "TEXTAREA", "SELECT"}

  /** The keydown and keyup maps, keyed here by event type and shortcut id together. */
  type ShortcutLists = map<(KeyEventType, string), seq<HandlerId>>

  /** What `triggerHandlers` does for an event: the handler it calls, if any. */
  function Dispatched(lists: ShortcutLists, e: KeyboardEvent): (r: Option<HandlerId>)
    ensures e.targetNodeName in Interactive ==> r == None
    ensures r.Some? ==> r.value in ListOf(lists, (e.eventType, Join(KeyIdParts(e), "+")))
  {
    if e.targetNodeName in Interactive then None
    else LastOf(lists, (e.eventType, Join(KeyIdParts(e), "+")))
  }

  /** An event on a non-interactive target calls the handler registered last for its id and type. */
  lemma DispatchAfterRegister(lists: ShortcutLists, e: KeyboardEvent, h: HandlerId)
    requires e.targetNodeName !in Interactive
    ensures Dispatched(Registered(lists, (e.eventType, Join(KeyIdParts(e), "+")), h), e) == Some(h)
  {
    LastRegisteredWins(lists, (e.eventType, Join(KeyIdParts(e), "+")), h);
  }

  /** Registering for keydown never changes what a keyup event calls, and the other way round. */
  lemma KeyRegistriesIndependent(lists: ShortcutLists, t: KeyEventType, shortcut: string, h: HandlerId, e: KeyboardEvent)
    requires e.eventType != t
    ensures Dispatched(Registered(lists, (t, shortcut), h), e) == Dispatched(lists, e)
  {
    LastRegisteredWins(lists, (t, shortcut), h);
  }

  /** The two registries: the shortcut lists of `_useKey` and the gesture lists of `useGesture`. */
  class Registry<K(==)> {
    var lists: map<K, seq<HandlerId>>

    constructor()
      ensures lists == map[]
    {
      lists := map[];
    }

    /** The effect's body, past the falsy guard: push the handler. */
    method Register(key: K, h: HandlerId)
      modifies this
      ensures lists == Registered(old(lists), key, h)
    {
      var handlers := ListOf(lists, key);
      lists := lists[key := handlers + [h]];
    }

    /** The function the effect returns: splice out the handler's first occurrence. */
    method Cleanup(key: K, h: HandlerId)
      modifies this
      ensures lists == Cleaned(old(lists), key, h)
    {
      if key in lists {
        var handlers := lists[key];
        var i := IndexOf(handlers, h);
        if i >= 0 {
          handlers := handlers[..i] + handlers[i + 1..];
        }
        lists := lists[key := handlers];
      }
    }
  }

  /** `_useKey(event, shortcut, handler)`: a falsy shortcut registers nothing. */
  method UseKey(reg: Registry<(KeyEventType, string)>, t: KeyEventType, shortcut: Option<string>, h: HandlerId)
    modifies reg
    ensures !Truthy(shortcut) ==> reg.lists == old(reg.lists)
    ensures Truthy(shortcut) ==> reg.lists == Registered(old(reg.lists), (t, shortcut.value), h)
  {
    if !Truthy(shortcut) {
      return;
    }
    reg.Register((t, shortcut.value), h);
  }

  /**
   * `triggerHandlers`: returns the handler called, which is also when the
   * event's default and propagation are stopped.
   */
  method TriggerHandlers(reg: Registry<(KeyEventType, string)>, e: KeyboardEvent) returns (called: Option<HandlerId>)
    ensures called == Dispatched(reg.lists, e)
  {
    if e.targetNodeName in Interactive {
      return None;
    }
    var id := KeyEventId(e);
    var handlers := ListOf(reg.lists, (e.eventType, id));
    if |handlers| > 0 {
      called := Some(handlers[|handlers| - 1]);
    } else {
      called := None;
    }
  }

  /** `useGesture(gesture, callback)`: a falsy gesture name registers nothing. */
  method UseGesture(reg: Registry<string>, gesture: Option<string>, h: HandlerId)
    modifies reg
    ensures !Truthy(gesture) ==> reg.lists == old(reg.lists)
    ensures Truthy(gesture) ==> reg.lists == Registered(old(reg.lists), gesture.value, h)
  {
    if !Truthy(gesture) {
      return;
    }
    reg.Register(gesture.value, h);
  }

  /**
   * The end of a right-button drag: the detected gesture (None when the drag
   * was too short or diagonal) calls the callback registered last for it.
   */
  method TriggerGesture(reg: Registry<string>, gesture: Option<string>) returns (called: Option<HandlerId>)
    ensures gesture.None? ==> called == None
    ensures gesture.Some? ==> called == LastOf(reg.lists, gesture.value)
  {
    if gesture.None? {
      return None;
    }
    var callbacks := ListOf(reg.lists, gesture.value);
    if |callbacks| > 0 {
      called := Some(callbacks[|callbacks| - 1]);
    } else {
      called := None;
    }
  }

  /**
   * The `useItemsPerRow` checker over the children's top edges: the first
   * index whose top differs from the one before, or the number of children
   * when every top is the same.
   */
  method ItemsPerRow(tops: seq<real>) returns (n: nat)
    ensures n <= |tops|
    ensures forall j :: 0 <= j < n ==> tops[j] == tops[0]
    ensures n < |tops| ==> 0 < n && tops[n] != tops[n - 1]
  {
    var currentTop: Option<real> := None;
    var i := 0;
    while i < |tops|
      invariant 0 <= i <= |tops|
      invariant forall j :: 0 <= j < i ==> tops[j] == tops[0]
      invariant currentTop == if i == 0 then None else Some(tops[i - 1])
    {
      if currentTop.Some? && currentTop.value != tops[i] {
        return i;
      }
      currentTop := Some(tops[i]);
      i := i + 1;
    }
    return |tops|;
  }
}
