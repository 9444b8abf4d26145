/**
 * src/components/CatalogNavigator.ts: keyboard navigation over the catalog's
 * thread links.
 *
 * The selection is `number | null` (`Option<int>`) and may name no thread:
 * `watcher.threads[selectedIndex]` is then `undefined`. The preselection
 * takes the distances of the thread centres from the window centre as a
 * parameter; scrolling, the cursor box and opening tabs are left out.
 */
module CatalogNavigation {
  import opened Wrappers
  import opened Text
  import opened Collections
  import opened CatalogWatching

  /** The argument of `navToIndex`: a number, or `Infinity` for the last thread. */
  datatype Target = At(index: int) | Infinity

  /** `watcher.threads[0].container` on an empty list throws a TypeError. */
  datatype NavError = NoThreads

  /** `navToIndex`: the index it selects, clamped into the list. */
  function NavToIndex(threads: seq<ThreadLink>, target: Target): (r: Result<int, NavError>)
    ensures r.Err? <==> threads == []
    ensures r.Ok? ==> 0 <= r.value < |threads|
    ensures r.Ok? && target.Infinity? ==> r.value == |threads| - 1
    ensures r.Ok? && target.At? && 0 <= target.index < |threads| ==> r.value == target.index
    ensures r.Ok? && target.At? && target.index < 0 ==> r.value == 0
    ensures r.Ok? && target.At? && target.index >= |threads| ==> r.value == |threads| - 1
  {
    var last := |threads| - 1;
    var capped := match target
      case Infinity => last
      case At(i) => if last <= i then last else i;
    var clamped := if 0 >= capped then 0 else capped;
    if clamped < |threads| then Ok(clamped) else Err(NoThreads)
  }

  /** `navBy(amount)`: the new selection; nothing happens without a selection. */
  function NavBy(threads: seq<ThreadLink>, selected: Option<int>, amount: int): (r: Result<Option<int>, NavError>)
    ensures selected.None? ==> r == Ok(None)
    ensures selected.Some? ==> r == match NavToIndex(threads, At(selected.value + amount))
                                    case Ok(i) => Ok(Some(i))
                                    case Err(e) => Err(e)
  {
    if selected.None? then Ok(None)
    else
      match NavToIndex(threads, At(selected.value + amount))
      case Ok(i) => Ok(Some(i))
      case Err(e) => Err(e)
  }

  /** A step of navigation from a thread of the list stays on the list and moves by at most the amount. */
  lemma NavByStaysOnList(threads: seq<ThreadLink>, s: int, amount: int)
    requires 0 <= s < |threads|
    ensures var r := NavBy(threads, Some(s), amount);
            r.Ok? && r.value.Some? && 0 <= r.value.value < |threads|
            && (amount >= 0 ==> s <= r.value.value <= s + amount)
            && (amount <= 0 ==> s + amount <= r.value.value <= s)
  {
  }

  /** A navigation step that stays inside the list can be undone by the opposite step. */
  lemma NavByRoundTrip(threads: seq<ThreadLink>, s: int, amount: int)
    requires 0 <= s < |threads| && 0 <= s + amount < |threads|
    ensures NavBy(threads, Some(s), amount) == Ok(Some(s + amount))
    ensures NavBy(threads, Some(s + amount), -amount) == Ok(Some(s))
  {
  }

  /** `toggleSettings`: an open side view closes, none opens the settings. */
  function ToggleSettings(sideView: Option<string>): (r: Option<string>)
    ensures Truthy(sideView) <==> r.None?
  {
    if Truthy(sideView) then None else Some("settings")
  }

  /** Toggling twice from a closed side view closes it again; from an open one it ends on the settings. */
  lemma ToggleSettingsTwice(sideView: Option<string>)
    ensures ToggleSettings(ToggleSettings(sideView)) == if Truthy(sideView) then Some("settings") else None
  {
  }

  /** The containers of the thread links, in list order. */
  function Containers(threads: seq<ThreadLink>): (r: seq<ChildId>)
    ensures |r| == |threads|
    ensures forall i :: 0 <= i < |threads| ==> r[i] == threads[i].container
  {
    seq(|threads|, i requires 0 <= i < |threads| => threads[i].container)
  }

  /**
   * The click handler as written: a click inside a catalog child selects the
   * result of `findIndex`, which is -1 for a child with no thread link, since
   * -1 passes the `!= null` check.
   */
  function ClickSelectionAsWritten(threads: seq<ThreadLink>, selected: Option<int>, clicked: Option<ChildId>): (r: Option<int>)
    ensures clicked.None? ==> r == selected
    ensures clicked.Some? ==> r.Some? && -1 <= r.value < |threads|
    ensures clicked.Some? ==> (r.value == -1 <==> clicked.value !in Containers(threads))
    ensures clicked.Some? && clicked.value in Containers(threads) ==> r == ClickSelection(threads, selected, clicked)
  {
    match clicked
    case None => selected
    case Some(c) => Some(IndexOf(Containers(threads), c))
  }

  /** Clicking a child that is not listed selects -1, which names no thread. */
  lemma ClickOnUnlistedChild(threads: seq<ThreadLink>, c: ChildId)
    requires c !in Containers(threads)
    ensures ClickSelectionAsWritten(threads, None, Some(c)) == Some(-1)
    ensures SelectedThread(threads, ClickSelectionAsWritten(threads, None, Some(c))).None?
  {
  }

  /** The click handler selecting only a listed thread: an unlisted child leaves the selection as it was. */
  function ClickSelection(threads: seq<ThreadLink>, selected: Option<int>, clicked: Option<ChildId>): (r: Option<int>)
    ensures clicked.Some? && clicked.value in Containers(threads) ==>
              r.Some? && 0 <= r.value < |threads| && threads[r.value].container == clicked.value
              && forall j :: 0 <= j < r.value ==> threads[j].container != clicked.value
    ensures !(clicked.Some? && clicked.value in Containers(threads)) ==> r == selected
  {
    match clicked
    case None => selected
    case Some(c) =>
      var i := IndexOf(Containers(threads), c);
      if i >= 0 then
        assert forall j :: 0 <= j < i ==> Containers(threads)[..i][j] == threads[j].container;
        Some(i)
      else selected
  }

  /** A clicked listed thread becomes the selected thread. */
  lemma ClickSelectsClickedThread(threads: seq<ThreadLink>, selected: Option<int>, c: ChildId)
    requires c in Containers(threads)
    ensures SelectedThread(threads, ClickSelection(threads, selected, Some(c))).Some?
    ensures SelectedThread(threads, ClickSelection(threads, selected, Some(c))).value.container == c
  {
  }

  /** `selectedThread`: the link at the selected index, if there is one. */
  function SelectedThread(threads: seq<ThreadLink>, selected: Option<int>): (r: Option<ThreadLink>)
    ensures r.Some? <==> selected.Some? && 0 <= selected.value < |threads|
    ensures r.Some? ==> r.value == threads[selected.value]
  {
    if selected.Some? && 0 <= selected.value < |threads| then Some(threads[selected.value]) else None
  }

  /**
   * The first of the nearest threads: the index of the first smallest
   * distance, None for no threads. `distances[i]` is the distance of thread
   * `i`'s centre from the centre of the window.
   */
  function FirstClosest(distances: seq<real>): (r: Option<nat>)
    ensures r.None? <==> distances == []
    ensures r.Some? ==> r.value < |distances|
    ensures r.Some? ==> forall j :: 0 <= j < |distances| ==> distances[r.value] <= distances[j]
    ensures r.Some? ==> forall j :: 0 <= j < r.value ==> distances[r.value] < distances[j]
  {
    if distances == [] then None
    else
      var n := |distances| - 1;
      var init := distances[..n];
      var r := FirstClosest(init);
      assert forall j :: 0 <= j < n ==> init[j] == distances[j];
      if r.None? || distances[n] < distances[r.value] then Some(n) else r
  }

  /** One more distance: it becomes the closest only when strictly nearer. */
  lemma FirstClosestSnoc(d: seq<real>, x: real)
    ensures var c := FirstClosest(d);
            FirstClosest(d + [x]) == if c.None? || x < d[c.value] then Some(|d|) else c
  {
    var s := d + [x];
    assert s[..|s| - 1] == d;
  }

  /**
   * The loop of the preselection effect: the running closest entry starts at
   * distance `Infinity` and no index, and moves to each strictly nearer thread.
   */
  method ClosestIndex(distances: seq<real>) returns (index: Option<nat>)
    ensures index == FirstClosest(distances)
  {
    var distance: Option<real> := None;  // None is `Infinity`
    index := None;
    var i := 0;
    while i < |distances|
      invariant 0 <= i <= |distances|
      invariant index == FirstClosest(distances[..i])
      invariant index.None? <==> distance.None?
      invariant index.Some? ==> index.value < i && distance == Some(distances[index.value])
    {
      assert distances[..i + 1] == distances[..i] + [distances[i]];
      FirstClosestSnoc(distances[..i], distances[i]);
      if distance.None? || distances[i] < distance.value {
        distance := Some(distances[i]);
        index := Some(i);
      }
      i := i + 1;
    }
    assert distances[..i] == distances;
  }

  /**
   * The preselection effect: disabling the navigator while a thread is
   * selected clears the selection; an enabled navigator with threads and none
   * selected selects the nearest thread; otherwise nothing changes.
   */
  function Preselection(threads: seq<ThreadLink>, selected: Option<int>, enabled: bool, distances: seq<real>): (r: Option<int>)
    requires |distances| == |threads|
    ensures !enabled ==> SelectedThread(threads, r).None?
    ensures enabled && SelectedThread(threads, selected).Some? ==> r == selected
    ensures enabled && SelectedThread(threads, selected).None? && threads != [] ==>
              r == Some(FirstClosest(distances).value as int) && SelectedThread(threads, r).Some?
    ensures (!enabled && SelectedThread(threads, selected).None?) || (enabled && threads == []) ==> r == selected
    ensures !enabled && SelectedThread(threads, selected).Some? ==> r == None
  {
    var current := SelectedThread(threads, selected);
    if current.Some? && !enabled then None
    else if enabled && current.None? && |threads| > 0 then
      var closest := FirstClosest(distances);
      if closest.Some? then Some(closest.value as int) else selected
    else selected
  }

  /** A second run of the effect on its own result changes nothing. */
  lemma PreselectionSettles(threads: seq<ThreadLink>, selected: Option<int>, enabled: bool, distances: seq<real>)
    requires |distances| == |threads|
    ensures var r := Preselection(threads, selected, enabled, distances);
            Preselection(threads, r, enabled, distances) == r
  {
  }

  /**
   * As written, a click on a child without a thread link throws the
   * selection away: the effect then moves it to the thread nearest the centre
   * of the window. With the corrected handler the selection stays.
   */
  lemma UnlistedClickJumpsToClosest(threads: seq<ThreadLink>, s: int, c: ChildId, distances: seq<real>)
    requires 0 <= s < |threads| && |distances| == |threads| && c !in Containers(threads)
    ensures Preselection(threads, ClickSelectionAsWritten(threads, Some(s), Some(c)), true, distances)
            == Some(FirstClosest(distances).value as int)
    ensures Preselection(threads, ClickSelection(threads, Some(s), Some(c)), true, distances) == Some(s)
  {
  }

  /** What a navigator shortcut does. */
  datatype Action =
    | ToggleUI
    | NavLeft | NavRight | NavUp | NavDown | NavPageBack | NavPageForward | NavStart | NavEnd
    | OpenThread | OpenThreadInNewTab | OpenThreadInBackgroundTab

  /** The shortcut settings the navigator reads. */
  datatype NavigatorKeys = NavigatorKeys(
    toggleUI: Option<string>,
    navLeft: Option<string>, navRight: Option<string>, navUp: Option<string>, navDown: Option<string>,
    navPageBack: Option<string>, navPageForward: Option<string>, navStart: Option<string>, navEnd: Option<string>,
    openThread: Option<string>, openThreadInNewTab: Option<string>, openThreadInBackgroundTab: Option<string>)

  /** `enabled && shortcut`: `false` when disabled, which registers nothing. */
  function Guarded(enabled: bool, shortcut: Option<string>): (r: Option<string>)
    ensures !enabled ==> !Truthy(r)
    ensures enabled ==> r == shortcut
  {
    if enabled then shortcut else None
  }

  /** The shortcut passed to each `useKey` call, in the order of the calls. */
  function Shortcuts(enabled: bool, k: NavigatorKeys): (r: seq<(Option<string>, Action)>)
    ensures |r| == 12
  {
    [ (k.toggleUI, ToggleUI),
      (Guarded(enabled, k.navLeft), NavLeft),
      (Guarded(enabled, k.navRight), NavRight),
      (Guarded(enabled, k.navUp), NavUp),
      (Guarded(enabled, k.navDown), NavDown),
      (Guarded(enabled, k.navPageBack), NavPageBack),
      (Guarded(enabled, k.navPageForward), NavPageForward),
      (Guarded(enabled, k.navStart), NavStart),
      (Guarded(enabled, k.navEnd), NavEnd),
      (Guarded(enabled, k.openThread), OpenThread),
      (Guarded(enabled, k.openThreadInNewTab), OpenThreadInNewTab),
      (k.openThreadInBackgroundTab, OpenThreadInBackgroundTab) ]
  }

  /**
   * A disabled navigator registers only the UI toggle and the
   * background-tab shortcut, which are not guarded; an enabled one passes
   * every setting through.
   */
  lemma DisabledRegistersOnlyUnguarded(k: NavigatorKeys)
    ensures forall i :: 0 <= i < 12 && Truthy(Shortcuts(false, k)[i].0) ==>
              Shortcuts(false, k)[i].1 == ToggleUI || Shortcuts(false, k)[i].1 == OpenThreadInBackgroundTab
    ensures Shortcuts(false, k)[0].0 == k.toggleUI && Shortcuts(false, k)[11].0 == k.openThreadInBackgroundTab
    ensures forall i :: 0 <= i < 12 ==> Shortcuts(true, k)[i].1 == Shortcuts(false, k)[i].1
  {
  }

  /** The state a shortcut acts on. */
  datatype NavState = NavState(selected: Option<int>, sideView: Option<string>)

  /**
   * The effect of a navigation shortcut on the state; the thread shortcuts
   * change nothing here (they open a URL). A throw is an error.
   */
  function Run(a: Action, threads: seq<ThreadLink>, itemsPerRow: int, st: NavState): (r: Result<NavState, NavError>)
    ensures a.ToggleUI? ==> r == Ok(NavState(st.selected, ToggleSettings(st.sideView)))
    ensures r.Ok? ==> r.value.sideView == st.sideView || a.ToggleUI?
  {
    var move := (amount: int) =>
      match NavBy(threads, st.selected, amount)
      case Ok(s) => Ok(st.(selected := s))
      case Err(e) => Err(e);
    var jump := (t: Target) =>
      match NavToIndex(threads, t)
      case Ok(i) => Ok(st.(selected := Some(i)))
      case Err(e) => Err(e);
    match a
    case ToggleUI => Ok(st.(sideView := ToggleSettings(st.sideView)))
    case NavLeft => move(-1)
    case NavRight => move(1)
    case NavUp => move(-itemsPerRow)
    case NavDown => move(itemsPerRow)
    case NavPageBack => move(-itemsPerRow * 3)
    case NavPageForward => move(itemsPerRow * 3)
    case NavStart => jump(At(0))
    case NavEnd => jump(Infinity)
    case OpenThread => Ok(st)
    case OpenThreadInNewTab => Ok(st)
    case OpenThreadInBackgroundTab => Ok(st)
  }

  /** Start and End select the first and the last thread; on an empty catalog they throw. */
  lemma StartAndEnd(threads: seq<ThreadLink>, itemsPerRow: int, st: NavState)
    ensures threads != [] ==> Run(NavStart, threads, itemsPerRow, st) == Ok(st.(selected := Some(0)))
    ensures threads != [] ==> Run(NavEnd, threads, itemsPerRow, st) == Ok(st.(selected := Some(|threads| - 1)))
    ensures threads == [] ==> Run(NavStart, threads, itemsPerRow, st).Err? && Run(NavEnd, threads, itemsPerRow, st).Err?
  {
  }

  /**
   * From a thread of the list, each move shortcut steps the selection by its
   * amount (one, a row, three rows), clamped to the first and the last thread;
   * the side view is untouched.
   */
  lemma MovesFromSelection(threads: seq<ThreadLink>, itemsPerRow: int, s: int, v: Option<string>)
    requires 0 <= s < |threads| && itemsPerRow >= 0
    ensures Run(NavLeft, threads, itemsPerRow, NavState(Some(s), v)) == Ok(NavState(Some(if s - 1 < 0 then 0 else s - 1), v))
    ensures Run(NavRight, threads, itemsPerRow, NavState(Some(s), v))
              == Ok(NavState(Some(if s + 1 > |threads| - 1 then |threads| - 1 else s + 1), v))
    ensures Run(NavUp, threads, itemsPerRow, NavState(Some(s), v))
              == Ok(NavState(Some(if s - itemsPerRow < 0 then 0 else s - itemsPerRow), v))
    ensures Run(NavDown, threads, itemsPerRow, NavState(Some(s), v))
              == Ok(NavState(Some(if s + itemsPerRow > |threads| - 1 then |threads| - 1 else s + itemsPerRow), v))
    ensures Run(NavPageBack, threads, itemsPerRow, NavState(Some(s), v))
              == Ok(NavState(Some(if s - 3 * itemsPerRow < 0 then 0 else s - 3 * itemsPerRow), v))
    ensures Run(NavPageForward, threads, itemsPerRow, NavState(Some(s), v))
              == Ok(NavState(Some(if s + 3 * itemsPerRow > |threads| - 1 then |threads| - 1 else s + 3 * itemsPerRow), v))
  {
    NavByClamps(threads, s, -1);
    NavByClamps(threads, s, 1);
    NavByClamps(threads, s, -itemsPerRow);
    NavByClamps(threads, s, itemsPerRow);
    NavByClamps(threads, s, -itemsPerRow * 3);
    NavByClamps(threads, s, itemsPerRow * 3);
  }

  /** From a thread of the list, `navBy(amount)` selects the target index clamped into the list. */
  lemma NavByClamps(threads: seq<ThreadLink>, s: int, amount: int)
    requires 0 <= s < |threads|
    ensures NavBy(threads, Some(s), amount)
              == Ok(Some(if s + amount < 0 then 0 else if s + amount > |threads| - 1 then |threads| - 1 else s + amount))
  {
  }

  /** The three open shortcuts leave the navigation state as it is (their effect is the page navigation). */
  lemma OpenShortcutsKeepState(threads: seq<ThreadLink>, itemsPerRow: int, st: NavState)
    ensures Run(OpenThread, threads, itemsPerRow, st) == Ok(st)
    ensures Run(OpenThreadInNewTab, threads, itemsPerRow, st) == Ok(st)
    ensures Run(OpenThreadInBackgroundTab, threads, itemsPerRow, st) == Ok(st)
  {
  }
}
