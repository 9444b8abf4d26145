# thread-media-viewer: a Dafny model of the viewer's core

thread-media-viewer is a userscript that collects the media of an image-board
thread and shows them in a side list. It also lets the user move through a
board's catalog with the keyboard. This project models the logic under the UI
and proves what it promises:

- **MediaWatcher** (`media_watcher.dfy`, module `MediaWatching`) turns a
  thread's posts into a media list. The list is append-only and indexed by a
  key. A known key is updated in place, and listeners are notified once per
  pass, only when the pass added or changed something.
- **CatalogWatcher** (`catalog_watcher.dfy`, `CatalogWatching`) keeps the
  catalog's thread links. It replaces them wholesale when a positional
  comparison finds a difference. The comparison uses the old list at the
  child's index.
- **syncedSettings / syncedStorage** (`synced_settings.dfy`,
  `SyncedSettingsModel`) share one model. It is a key/value record behind a
  guarded property interface, stored as JSON in a `localStorage` slot. It has
  a debounced save, `_assign`/`_reset`, listeners, and reconciliation with
  other tabs' writes.
- **utils** (`utils.dfy`, `Utils`) covers `ns`, `clamp`, `formatSeconds`
  and `keyEventId`. The last of these is written as the source's loop of
  appends and proved equal to a canonical list of id parts.
- **hooks** (`hooks.dfy`, `Hooks`) covers the shortcut and gesture handler
  registries, in which the last handler registered wins, and the
  items-per-row counter.
- **elementSize** (`element_size.dfy`, `ElementSize`) covers the element-size
  observer registry with its batched commit and its dispose functions.
- **serializers** (`serializers.dfy`, `Serializers`) covers the 4chan and The
  B Archive post serializers. The DOM lookups are inputs.
- **MediaList** (`media_list.dfy`, `MediaList`) covers the keyboard navigation
  of the media list and the items' meta label.
- **CatalogNavigator** (`catalog_navigator.dfy`, `CatalogNavigation`) covers
  index navigation, the click-to-select rule, the preselection effect and the
  enable guard on shortcuts.
- **Supporting modules**: `Wrappers` has `Option`/`Result`. `Text` has the
  JavaScript string operations the core uses. `Collections` has the
  `indexOf` + `splice` removal and duplicate-freedom.

Browser services become explicit inputs or explicit calls:

| Browser service | In the model |
|---|---|
| DOM | sequences of opaque child ids, plus serializer and measurement functions passed as parameters |
| Timers | a pending flag plus an explicit `Flush` or `Commit` |
| `storage` event | an explicit `Reconcile` |
| Another tab's write | `ExternalWrite` |

Where the code and the system's design intent differ, the model follows the
code:

- **Stored keys.** `load` keeps stored keys that the defaults do not have
  (`src/lib/syncedSettings.ts:41`).
- **Video detection.** `isVideo` holds for any extension that contains `web`
  or `mp4`, such as `webp`, because the regular expression is not anchored
  (`src/lib/mediaWatcher.ts:56`).
- **Catalog truncation.** CatalogWatcher does not notice a catalog that lost
  trailing children (`src/lib/catalogWatcher.ts:40-50`).
- **Extension.** The extension is taken after the last `.` of the whole URL,
  not of its last path segment (`src/lib/mediaWatcher.ts:52`).

Two places in the code are evidently wrong; they are listed under
"## Findings". For each, the model has the code as written and a corrected
version next to it:

- **Page forward.** `MediaList.MoveTarget` and `MediaList.Select` follow the
  code, which caps the page-forward target at `media.length`
  (`src/components/MediaList.ts:136`). `MediaList.CorrectedMoveTarget` and
  `MediaList.SelectCorrected` cap it at `media.length - 1`.
- **Click on an unlisted child.** `CatalogNavigation.ClickSelectionAsWritten`
  follows the code, which selects -1 (`src/components/CatalogNavigator.ts:96-97`).
  `CatalogNavigation.ClickSelection` is the corrected handler, which keeps the
  selection.

The identity key of MediaWatcher is an open question.
`src/lib/mediaWatcher.ts:62` reads `mediaItem.id`, but neither `Media` nor
`SerializedMedia` declares an `id`. The model therefore takes the key
function `keyOf` as a parameter and states every invariant relative to it.
`MediaWatching.ConstantKeyKeepsOneEntry` shows what a key that is always the
same value (as `undefined` would be) does to the list.

## Model

| member | source | states |
|---|---|---|
| `Utils.Ns` | src/lib/utils.ts:14 | the result is the prefix `_tmv_` followed by exactly the name |
| `Utils.NsInjective` | src/lib/utils.ts:14 | two names with the same namespaced form are the same name |
| `Utils.Clamp` | src/lib/utils.ts:19-21 | the result lies in `[min, max]` when `min <= max`; a value already inside is returned unchanged; a value below gives `min`, one above gives `max`; crossed bounds give `min` |
| `Utils.Pad2OfNat` | src/lib/utils.ts:135 | `padStart(2, '0')` puts a zero before one-digit numbers only |
| `Utils.ParsePad2` | src/lib/utils.ts:135 | a padded number is all digits and parses back to the number |
| `Utils.FormatSeconds` | src/lib/utils.ts:132-136 | the text has at least five characters and contains a colon |
| `Utils.FormatNinetySeconds` | src/lib/utils.ts:130 | 90 seconds format as `01:30` |
| `Utils.PaddedPairRoundTrip` | src/lib/utils.ts:135 | two padded numbers joined by `:` split back into exactly those two numbers |
| `Utils.FormatSecondsRoundTrip` | src/lib/utils.ts:132-135 | the text splits at its one colon into parts that parse to `s div 60` and `s mod 60` |
| `Utils.EffectiveKey` | src/lib/utils.ts:190-194 | the space bar goes by its `code`; a key that is not on the numpad keeps its name |
| `Utils.IdPartsMeaning` | src/lib/utils.ts:195-200 | Alt, Ctrl and Shift each appear exactly when their flag is set; they come in that order; the key comes last exactly when it is not itself named Alt, Ctrl or Shift |
| `Utils.KeyIdParts` | src/lib/utils.ts:192-200 | for an event: Alt and Ctrl appear exactly when held; Shift appears exactly when shift is held and the effective key name is longer than one character or the code starts with `Numpad`; the order is fixed Alt, Ctrl, Shift, key; the key comes last unless it is named Alt, Ctrl or Shift |
| `Utils.KeyName` | src/lib/utils.ts:190-194 | the key name and numpad flag the method computes are the effective key and the numpad test |
| `Utils.AppendPart` | src/lib/utils.ts:197-200 | each conditional `id += (id.length > 0 ? '+' : '') + part` extends the `+`-joined list of parts by that part |
| `Utils.KeyEventId` | src/lib/utils.ts:189-202 | the id the appends build is the event's parts joined by `+` |
| `Utils.ControlKeyAlone` | src/lib/utils.ts:200 | the Control key alone gives `Ctrl+Control`, because its key name is `Control` |
| `Text.Lower` | src/lib/mediaWatcher.ts:52 | `toLowerCase` keeps the length and lowers each letter |
| `Text.TailAfterLast` | src/serializers.ts:75 | `/\/([^\/]+)$/`: a non-empty tail without the separator that follows its last occurrence; none when the separator is absent or ends the text |
| `Text.Split` | src/serializers.ts:73 | `split` on one character gives at least one piece, and no piece contains it |
| `Text.UpTo` | src/serializers.ts:73 | the text in front of the first separator: a prefix without the separator, shorter than the text exactly when the separator occurs, and followed by it then |
| `Text.SplitPieces` | src/serializers.ts:73-74 | the first piece of `split` is the text in front of the first separator; there is a second piece exactly when the separator occurs, and it is the text up to the next one |
| `Text.JoinSplit` | src/serializers.ts:73 | joining the pieces of a split with the separator gives the text back |
| `Text.TrimStart` | src/serializers.ts:73 | `trim` at the front drops exactly the leading white space |
| `Text.TrimEnd` | src/serializers.ts:73 | `trim` at the back drops exactly the trailing white space |
| `Text.ParseInt` | src/serializers.ts:74 | `parseInt(s, 10)` is NaN exactly when no digit follows the leading white space and an optional sign |
| `Text.ParseIntOfIntToString` | src/serializers.ts:74 | `parseInt(String(n), 10)` is `n` for every integer |
| `Text.PadStart` | src/lib/utils.ts:135 | `padStart` fills on the left up to the width and keeps the text as the suffix |
| `Collections.IndexOf` | src/lib/hooks.ts:55 | `indexOf` is -1 exactly when absent, otherwise the first position holding the element |
| `Collections.RemoveFirstMultiset` | src/lib/hooks.ts:55-56 | `splice(indexOf(x), 1)` removes one occurrence of a present element and leaves any other sequence unchanged |
| `Collections.RemoveFirstAt` | src/lib/hooks.ts:55-56 | the other elements keep their order around the spliced position |
| `Collections.RemoveFirstNoDup` | src/lib/elementSize.ts:75 | on a duplicate-free sequence (a `Set`), deletion removes exactly that element |
| `MediaWatching.Extension` | src/lib/mediaWatcher.ts:52 | the extension is empty exactly when the URL has no `.` or ends with one; otherwise it is the lowered run without `.` after the last `.` |
| `MediaWatching.VideoExtensions` | src/lib/mediaWatcher.ts:56 | `webm`, `mp4` and also `webp` count as video; `gif` and `png` do not |
| `MediaWatching.IsVideoExtension` | src/lib/mediaWatcher.ts:56 | a video extension has at least three characters, and every extension that starts with `web` or `mp4` is one |
| `MediaWatching.MakeMedia` | src/lib/mediaWatcher.ts:52-60 | the record copies the serialized fields, the post and the replies; its extension is empty exactly when the URL has no `.` or ends with one; `isGif` holds exactly for `gif`; `isVideo` holds exactly for extensions containing `web` or `mp4` |
| `MediaWatching.MediaItemsAt` | src/lib/mediaWatcher.ts:51-60 | the `i`-th item of a post is the record and the key of its `i`-th media entry |
| `MediaWatching.Items` | src/lib/mediaWatcher.ts:45-51 | posts the serializer rejects contribute no items; with none accepted there are none |
| `MediaWatching.ItemsAppend` | src/lib/mediaWatcher.ts:45-51 | the items of consecutive runs of children are those of each run in turn, in child order |
| `MediaWatching.Step` | src/lib/mediaWatcher.ts:62-75 | the item's key ends up indexed with the item's data; an unknown key is appended; a known key is overwritten, and sets `hasChanges`, exactly when its snapshot differs; every other key keeps its record |
| `MediaWatching.Fold` | src/lib/mediaWatcher.ts:45-76 | within a pass the added keys only grow, by at most one per media item; the `hasChanges` flag is never reset; no key leaves the index |
| `MediaWatching.FoldKeepsUnmet` | src/lib/mediaWatcher.ts:62-75 | a known key that no item of the pass carries keeps its record |
| `MediaWatching.Pass` | src/lib/mediaWatcher.ts:40-77 | no key leaves the index, and at most one key is appended per media item |
| `MediaWatching.PassAddsOnlyNew` | src/lib/mediaWatcher.ts:62-79 | the index grows by exactly the keys the pass appends, and every one of them was unknown before |
| `MediaWatching.PassKeepsUnmet` | src/lib/mediaWatcher.ts:40-77 | a pass leaves alone every record whose key none of its items carries |
| `MediaWatching.FoldKeepsIndexed` | src/lib/mediaWatcher.ts:62-75 | the list of keys stays duplicate-free and names exactly the keys of the index |
| `MediaWatching.PassKeepsIndexed` | src/lib/mediaWatcher.ts:40-79 | a whole pass keeps the list duplicate-free and in step with the index, repeats within the pass included |
| `MediaWatching.FoldAddsFirstSeen` | src/lib/mediaWatcher.ts:62-75 | the keys a pass appends are the new keys in first-seen order, in child order and then media order; the index ends up holding the old keys and every key seen |
| `MediaWatching.FirstSeenMeaning` | src/lib/mediaWatcher.ts:73-74 | a key is appended exactly when it was unknown and seen, and never twice |
| `MediaWatching.FoldLastDataWins` | src/lib/mediaWatcher.ts:65-67 | after a pass, every key seen holds the data of its last occurrence |
| `MediaWatching.KeyDataChangesOnlyWithFlag` | src/lib/mediaWatcher.ts:65-69 | a known key's data changes only when `hasChanges` is set |
| `MediaWatching.RepeatPassIsQuiet` | src/lib/mediaWatcher.ts:40-83 | a second pass over the same posts adds nothing, changes nothing and so notifies nobody, when no key carries two different records in one pass |
| `MediaWatching.ClashingKeysAlwaysChange` | src/lib/mediaWatcher.ts:62-69 | two different records under one key in a pass always report a change |
| `MediaWatching.ConstantKeyKeepsOneEntry` | src/lib/mediaWatcher.ts:62 | with a key that is always the same value, the list never holds more than one item |
| `MediaWatching.MediaWatcher.constructor` | src/lib/mediaWatcher.ts:21-33 | the watcher starts with no listeners and the result of a first pass over an empty index |
| `MediaWatching.MediaWatcher.Destroy` | src/lib/mediaWatcher.ts:35-38 | the listeners are cleared and the media are kept |
| `MediaWatching.MediaWatcher.Subscribe` | src/lib/mediaWatcher.ts:86-89 | the listener is added and nothing else changes |
| `MediaWatching.MediaWatcher.Unsubscribe` | src/lib/mediaWatcher.ts:91-93 | the listener is removed and nothing else changes |
| `MediaWatching.MediaWatcher.Absorb` | src/lib/mediaWatcher.ts:62-75 | one media item updates the index, the added batch and the flags as one step of the pass |
| `MediaWatching.MediaWatcher.SerializePost` | src/lib/mediaWatcher.ts:46-76 | the inner loop over one post's media is the pass over that post's items; `hasNewMedia` holds exactly when the batch is non-empty |
| `MediaWatching.MediaWatcher.SerializePosts` | src/lib/mediaWatcher.ts:45-77 | the outer loop over the children is the whole pass; `hasNewMedia` holds exactly when the batch is non-empty; the list and the listeners are untouched |
| `MediaWatching.MediaWatcher.Serialize` | src/lib/mediaWatcher.ts:40-84 | the list grows by exactly the pass's new keys; the index is the pass's result; the listeners are notified exactly when something was added or changed, with the added media and the whole list |
| `CatalogWatching.NewThreads` | src/lib/catalogWatcher.ts:40-47 | the new list has no more entries than there are children |
| `CatalogWatching.NewThreadsOfOne` | src/lib/catalogWatcher.ts:44-45 | one child gives its link when its URL is truthy and nothing otherwise |
| `CatalogWatching.NewThreadsAppend` | src/lib/catalogWatcher.ts:40-47 | the links of consecutive runs of children are those of each run in turn; with `NewThreadsOfOne`, the list is exactly the URL children, once each, in child order |
| `CatalogWatching.NewThreadsHasUrlChild` | src/lib/catalogWatcher.ts:44-45 | every child with a truthy URL has its link in the list, right after the links of the children before it |
| `CatalogWatching.DiffersAt` | src/lib/catalogWatcher.ts:44-46 | only a child with a truthy URL can differ; past the end of the old list every such child differs |
| `CatalogWatching.Changed` | src/lib/catalogWatcher.ts:40-48 | from an empty list, a pass reports a change exactly when some child has a truthy URL |
| `CatalogWatching.NewThreadsAreUrlChildren` | src/lib/catalogWatcher.ts:44-45 | every entry is a child whose serializer gave a truthy URL, with that URL |
| `CatalogWatching.NewThreadsOfUrlChildren` | src/lib/catalogWatcher.ts:40-47 | when every child yields a URL, entry `i` is child `i` with its URL |
| `CatalogWatching.RepeatPassIsQuiet` | src/lib/catalogWatcher.ts:44-46 | when every child yields a URL, a second pass over the same children detects no change |
| `CatalogWatching.TruncationIsMissed` | src/lib/catalogWatcher.ts:40-50 | dropping trailing children is not detected |
| `CatalogWatching.NewThreadsIgnoresTail` | src/lib/catalogWatcher.ts:44 | trailing children without a URL add no entries |
| `CatalogWatching.NewThreadsShorter` | src/lib/catalogWatcher.ts:44 | one child without a URL makes the list shorter than the children |
| `CatalogWatching.ChangedPastEnd` | src/lib/catalogWatcher.ts:46 | a URL child at an index past the end of the old list is always a change |
| `CatalogWatching.GapAlwaysChanges` | src/lib/catalogWatcher.ts:44-46 | a URL-less child before a URL child makes every pass report a change, even a repeat |
| `CatalogWatching.CatalogWatcher.constructor` | src/lib/catalogWatcher.ts:17-29 | the watcher starts from the first pass over an empty list, with no listeners |
| `CatalogWatching.CatalogWatcher.Destroy` | src/lib/catalogWatcher.ts:31-34 | all listeners are cleared |
| `CatalogWatching.CatalogWatcher.Subscribe` | src/lib/catalogWatcher.ts:56-59 | the listener is added |
| `CatalogWatching.CatalogWatcher.Unsubscribe` | src/lib/catalogWatcher.ts:61-63 | the listener is removed |
| `CatalogWatching.CatalogWatcher.Serialize` | src/lib/catalogWatcher.ts:36-54 | on a detected change the list is replaced and every listener is called; otherwise nothing changes and nobody is called |
| `SyncedSettingsModel.Load` | src/lib/syncedSettings.ts:37-46 | the defaults overlaid with every stored field, extra keys kept; the defaults alone for a missing, empty or corrupt slot |
| `SyncedSettingsModel.Serialized` | src/lib/syncedSettings.ts:52 | `JSON.stringify` writes exactly the fields that are not `undefined`, with their values |
| `SyncedSettingsModel.FlushLoadRoundTrip` | src/lib/syncedSettings.ts:37-58 | a record without `undefined` fields that covers the defaults loads back unchanged after a flush |
| `SyncedSettingsModel.UndefinedFieldLoadsDefault` | src/lib/syncedSettings.ts:41-52 | a field set to `undefined` reads its default after a flush and load |
| `SyncedSettingsModel.Differing` | src/lib/syncedSettings.ts:66-67 | the differing keys are exactly the loaded keys whose value is `!==` the current one |
| `SyncedSettingsModel.Reconciled` | src/lib/syncedSettings.ts:63-73 | exactly the differing keys take the loaded value; every other key keeps its own |
| `SyncedSettingsModel.ReconciledAgrees` | src/lib/syncedSettings.ts:66-70 | after reconciliation every loaded key reads its loaded value |
| `SyncedSettingsModel.ReconcileIsIdempotent` | src/lib/syncedSettings.ts:63-73 | a second reconciliation against the same data finds nothing to change |
| `SyncedSettingsModel.OwnWriteIsQuiet` | src/lib/syncedSettings.ts:48-73 | reading back the tab's own flush finds no differing key |
| `SyncedSettingsModel.ReconcileRecord` | src/lib/syncedSettings.ts:64-72 | the loop yields the reconciled record, and `hasChanges` holds exactly when some key differed |
| `SyncedSettingsModel.SyncedSettings.constructor` | src/lib/syncedSettings.ts:29-31 | the record is loaded from the slot, with no save pending and no listeners |
| `SyncedSettingsModel.SyncedSettings.Get` | src/lib/syncedSettings.ts:99-105 | control members come first, then the record's fields; any other name is an error |
| `SyncedSettingsModel.SyncedSettings.Save` | src/lib/syncedSettings.ts:48-50 | a save is pending afterwards, and an already pending one is reused |
| `SyncedSettingsModel.SyncedSettings.Flush` | src/lib/syncedSettings.ts:51-54 | a pending save writes the whole current record and clears the pending state |
| `SyncedSettingsModel.SyncedSettings.Set` | src/lib/syncedSettings.ts:106-114 | a known key is updated alone, a save is requested and every listener is called; an unknown key is an error and changes nothing |
| `SyncedSettingsModel.SyncedSettings.Assign` | src/lib/syncedSettings.ts:77-81 | all fields are merged, unknown keys too, then one save request and one notification round |
| `SyncedSettingsModel.SyncedSettings.Reset` | src/lib/syncedSettings.ts:82-84 | `_assign(defaults)`: afterwards every default key reads its default |
| `SyncedSettingsModel.SyncedSettings.Subscribe` | src/lib/syncedSettings.ts:85-87 | the listener is added |
| `SyncedSettingsModel.SyncedSettings.Unsubscribe` | src/lib/syncedSettings.ts:89-91 | the listener is removed |
| `SyncedSettingsModel.SyncedSettings.ExternalWrite` | src/lib/syncedSettings.ts:61-62 | another tab's write replaces the slot and nothing else |
| `SyncedSettingsModel.SyncedSettings.Reconcile` | src/lib/syncedSettings.ts:61-74 | the record becomes the reconciliation with the loaded slot; the listeners are called once, and only if a key differed |
| `Hooks.LastOf` | src/lib/hooks.ts:29-33 | the handler that runs is in the list, and there is none exactly when the list is empty |
| `Hooks.Registered` | src/lib/hooks.ts:46-52 | registration creates the list when absent and touches no other key |
| `Hooks.Cleaned` | src/lib/hooks.ts:54-57 | a cleanup keeps every key, emptied lists included, and touches no other key |
| `Hooks.LastRegisteredWins` | src/lib/hooks.ts:27-52 | the handler registered last is the one that runs, and no other key's handler changes |
| `Hooks.CleanupUndoesRegister` | src/lib/hooks.ts:48-56 | a cleanup right after a registration restores the lists, except that a created list stays, empty |
| `Hooks.CleanupRemovesOne` | src/lib/hooks.ts:54-56 | the cleanup removes the first occurrence of its handler; the others keep their order |
| `Hooks.CleanupOfUnknownHandler` | src/lib/hooks.ts:55-56 | a cleanup of a handler that is not in the list changes nothing |
| `Hooks.Dispatched` | src/lib/hooks.ts:22-34 | events on `INPUT`, `TEXTAREA` and `SELECT` targets call nothing; anything called is registered for the event's type and id |
| `Hooks.DispatchAfterRegister` | src/lib/hooks.ts:22-52 | an event calls the handler registered last under its type and id |
| `Hooks.KeyRegistriesIndependent` | src/lib/hooks.ts:18-21 | registering for keydown never changes what keyup calls, and the other way round |
| `Hooks.Registry.constructor` | src/lib/hooks.ts:18-21 | a registry starts empty |
| `Hooks.Registry.Register` | src/lib/hooks.ts:47-52 | the handler is pushed onto the key's list |
| `Hooks.Registry.Cleanup` | src/lib/hooks.ts:54-57 | the handler's first occurrence is spliced out |
| `Hooks.UseKey` | src/lib/hooks.ts:45-52 | a falsy shortcut registers nothing; any other registers the handler |
| `Hooks.TriggerHandlers` | src/lib/hooks.ts:22-34 | the handler called is the dispatched one |
| `Hooks.UseGesture` | src/lib/hooks.ts:231-238 | a falsy gesture registers nothing; any other registers the callback |
| `Hooks.TriggerGesture` | src/lib/hooks.ts:213-216 | a detected gesture calls the callback registered last for it; no gesture calls nothing |
| `Hooks.ItemsPerRow` | src/lib/hooks.ts:149-161 | the first index whose top differs from the one before it, or the number of children when all tops are equal |
| `ElementSize.Reported` | src/lib/elementSize.ts:58-61 | the callback receives the client pair for `padding-box` and the offset pair otherwise |
| `ElementSize.Snapshot` | src/lib/elementSize.ts:28-34 | one change per changed element, in order, with its measured sizes |
| `ElementSize.CallsOf` | src/lib/elementSize.ts:40 | each observer of a change is called once, in order, with its box |
| `ElementSize.CallsOfMeaning` | src/lib/elementSize.ts:40 | a call happens exactly when it is some observer's callback with the box that observer asked for |
| `ElementSize.CallsFor` | src/lib/elementSize.ts:38-41 | a commit of one change calls exactly that element's observers, in order, each with its box |
| `ElementSize.CallsForMeaning` | src/lib/elementSize.ts:38-41 | a call happens exactly when it belongs to one of the snapshotted changes |
| `ElementSize.Measure` | src/lib/elementSize.ts:28-34 | the measuring loop yields the snapshot |
| `ElementSize.ElementSizes.constructor` | src/lib/elementSize.ts:10-12 | no commit pending, no changed element, no observer |
| `ElementSize.ElementSizes.RequestCommit` | src/lib/elementSize.ts:14-17 | the element is added to the changed set; a commit is scheduled only when none is pending; the sets, the map, the set owners and the counters are unchanged |
| `ElementSize.ElementSizes.Notify` | src/lib/elementSize.ts:38-41 | the notification loop makes exactly the calls of the changes |
| `ElementSize.ElementSizes.Commit` | src/lib/elementSize.ts:24-42 | the pending mark and the changed set are cleared, and the observers of every snapshotted element are called with its sizes; the sets, the map, the set owners and the counters are unchanged |
| `ElementSize.ElementSizes.Observe` | src/lib/elementSize.ts:50-72 | the observer joins the element's set, which is created and registered when new; the whole new registry is stated: only that set changes, every other set keeps its observers and owner, and `nextSet` grows exactly when a set was made; other elements keep their observers; `precheck` requests a commit |
| `ElementSize.ElementSizes.AddObserver` | src/lib/elementSize.ts:63-66 | the element's existing set, or a new one registered in the map, gains the observer; every other set keeps its observers and owner, and `nextSet` grows exactly when a set was made |
| `ElementSize.ElementSizes.RegisterSet` | src/lib/elementSize.ts:63-64 | the element's set is the one it already has, or a new empty set under the next name, registered for it; no element's observers change |
| `ElementSize.ElementSizes.JoinSet` | src/lib/elementSize.ts:65 | the element's set alone gains the fresh observer at its end; the map, the owners and `nextSet` are unchanged |
| `ElementSize.ElementSizes.Dispose` | src/lib/elementSize.ts:73-77 | the observer leaves its own set, and the element's entry is deleted when that set becomes empty |
| `ElementSize.ElementSizes.TapElementSize` | src/lib/elementSize.ts:95-106 | the current pair matching the box is returned with a registered observer, with the same registry frame as `Observe` |
| `ElementSize.ElementSizes.ObserveThenDispose` | src/lib/elementSize.ts:63-77 | registering and then disposing leaves every element's observers as they were |
| `ElementSize.StaleDisposeDropsLiveEntry` | src/lib/elementSize.ts:63-77 | a dispose called again after its element was dropped and observed anew deletes the new map entry, so the live observer, still in its own set, is no longer reached |
| `Serializers.OrElse` | src/serializers.ts:75 | the JavaScript `or` of two optional strings is truthy exactly when one of them is, and is the first when that one is truthy |
| `Serializers.Filename` | src/serializers.ts:75 | the filename is never empty; it is the title when that is truthy, else the text when that is truthy, else the URL part after the last `/` |
| `Serializers.FilenameFromUrl` | src/serializers.ts:75 | without a title or text, the filename is the URL part after the last `/` |
| `Serializers.NoFilenameForTrailingSlash` | src/serializers.ts:75 | a URL that ends with `/` gives no filename |
| `Serializers.FindMeta` | src/serializers.ts:72 | a match is an opening parenthesis whose parenthesis-free contents have the meta shape |
| `Serializers.FindMetaLeftmost` | src/serializers.ts:72 | the match found is the leftmost one |
| `Serializers.FortuneMeta` | src/serializers.ts:72 | the captured meta text contains a comma and no parenthesis |
| `Serializers.FortuneMetaOfParenthesized` | src/serializers.ts:72 | a parenthesised `size, WxH` after a text without `(` is the captured meta text |
| `Serializers.SizeAndDimensions` | src/serializers.ts:73 | no meta gives neither part; a meta always gives a size; dimensions need a comma |
| `Serializers.SizeAndDimensionsMeaning` | src/serializers.ts:73 | the size is the trimmed text before the first comma; the dimensions are the trimmed text between the first and second comma, absent with no comma |
| `Serializers.IntOrUndefined` | src/serializers.ts:74 | reading a number with `parseInt` and falling back to `undefined` gives none exactly when the parse is NaN or 0, and is the parsed number otherwise |
| `Serializers.WidthAndHeight` | src/serializers.ts:74 | no dimensions give neither side; a height needs an `x` |
| `Serializers.WidthAndHeightMeaning` | src/serializers.ts:74 | the width is read from the text before the first `x`, the height from the text between the first and second `x`, absent with no `x` |
| `Serializers.MissingWidthIsAbsent` | src/serializers.ts:74 | `xH` has no width, and the height is read as usual |
| `Serializers.MetaTextReadsBack` | src/serializers.ts:73-74 | the meta text `size, WxH` gives back the size and both sides, a zero side as absent |
| `Serializers.SizeAndDimensionsOfJoined` | src/serializers.ts:73 | `size, dimensions` splits and trims back into the size and the dimensions |
| `Serializers.WidthAndHeightOfPair` | src/serializers.ts:74 | `WxH` gives back width and height, a zero side as absent |
| `Serializers.MediaPost` | src/serializers.ts:79-82 | the one media entry copies url, thumbnail and filename; its size and dimensions come from splitting the meta text; the replies are the backlink count |
| `Serializers.FortunePostSerializer` | src/serializers.ts:68-83 | a post is kept exactly when url, thumbnail and filename are truthy; it has one media entry with those values and the backlink count as replies; its size, width and height are read from the meta text the pattern captures; no meta gives no size or dimensions |
| `Serializers.ArchivePostSerializer` | src/serializers.ts:86-101 | the same rule for The B Archive, with size, width and height read from the whole metadata text; a metadata text always gives a size |
| `Serializers.FortuneReadsMeta` | src/serializers.ts:68-83 | a 4chan file text `name (size, WxH)` with nothing before it that opens a parenthesis gives the media that size and those sides, a zero side as absent |
| `Serializers.ArchiveReadsMeta` | src/serializers.ts:86-101 | a B Archive metadata text `size, WxH` gives the media that size and those sides, a zero side as absent |
| `MediaList.SelectAndScrollTo` | src/components/MediaList.ts:52-57 | the selection changes exactly when the index is a position of the list |
| `MediaList.MoveTarget` | src/components/MediaList.ts:120-138 | as written: First and Last target 0 and `length - 1`; a relative move has a target exactly when something is selected |
| `MediaList.PageForwardAsWritten` | src/components/MediaList.ts:135-136 | as written, the page-forward target is three rows on, capped at `media.length`, which is not an index of the list |
| `MediaList.PageForwardTarget` | src/components/MediaList.ts:130-136 | corrected: the target is three rows on, capped at `media.length - 1` as `selectDown` is |
| `MediaList.CorrectedMoveTarget` | src/components/MediaList.ts:120-138 | corrected: the same target as written for every move but page forward, which has a target exactly when something is selected |
| `MediaList.Select` | src/components/MediaList.ts:120-138 | as written: a selection on the list stays on the list, and any change selects an item of the list |
| `MediaList.SelectCorrected` | src/components/MediaList.ts:120-138 | corrected: a selection on the list stays on it, any change selects an item, and every move but page forward is the one as written |
| `MediaList.RelativeMovesNeedSelection` | src/components/MediaList.ts:120-138 | without a selection only First and Last move; on an empty list nothing moves |
| `MediaList.MovesClamp` | src/components/MediaList.ts:120-133 | up, down, previous and next move by a row or by one, clamped into the list |
| `MediaList.PagesClamp` | src/components/MediaList.ts:134-138 | page back moves back by three rows, clamped at 0; First and Last reach the ends |
| `MediaList.PageForwardStallsNearEnd` | src/components/MediaList.ts:135-136 | as written, a page forward from item 8 of 10 stays on item 8; the corrected move reaches item 9 |
| `MediaList.PageForwardAsWrittenRefused` | src/components/MediaList.ts:135-136 | as written, a page forward moves by three rows when that is still before the end, and otherwise stays |
| `MediaList.CorrectedPageForwardClamps` | src/components/MediaList.ts:130-136 | corrected: a page forward moves by three rows, clamped at the last item |
| `MediaList.SelectAndView` | src/components/MediaList.ts:139-166 | the selection is that of the plain move; there is an activation exactly when something is selected, and it is the index computed by the plain move |
| `MediaList.ViewActivatesSelection` | src/components/MediaList.ts:139-166 | from an item of the list, the index activated is the index selected |
| `MediaList.ViewOnEmptyList` | src/components/MediaList.ts:146-152 | a stale selection on an empty list activates index -1 |
| `MediaList.ToggleView` | src/components/MediaList.ts:167 | the toggle yields nothing exactly when the selected item is the active one (or nothing is selected), and otherwise the selection |
| `MediaList.ToggleTwice` | src/components/MediaList.ts:167 | toggling twice returns to no activation, unless the selected item was already active |
| `MediaList.MetaLabel` | src/components/MediaList.ts:197-201 | there is a label exactly when the size is truthy or both dimensions are; it is never empty; without both dimensions it is the size |
| `MediaList.MetaLabelOfAll` | src/components/MediaList.ts:197-201 | with a truthy size and non-zero width and height the label is `size, W×H` |
| `MediaList.MetaLabelOfDimensions` | src/components/MediaList.ts:197-200 | without a size, non-zero width and height give the label `W×H` alone |
| `MediaList.MetaLabelWithoutDimensions` | src/components/MediaList.ts:197-198 | when width or height is missing or 0, the label is the size, or none when the size is falsy |
| `MediaList.MetaLabelOfMetaText` | src/components/MediaList.ts:197-201 | a meta text `size, WxH` read by the serializers is labelled `size, W×H` |
| `CatalogNavigation.NavToIndex` | src/components/CatalogNavigator.ts:106-113 | an empty catalog throws; otherwise the index is clamped into the list, and `Infinity` gives the last thread |
| `CatalogNavigation.NavBy` | src/components/CatalogNavigator.ts:114 | nothing happens without a selection; otherwise the selection is navigated to by the amount |
| `CatalogNavigation.NavByStaysOnList` | src/components/CatalogNavigator.ts:114 | a step from a listed thread stays on the list and moves by at most the amount, in its direction |
| `CatalogNavigation.NavByRoundTrip` | src/components/CatalogNavigator.ts:114 | a step that stays inside the list is undone by the opposite step |
| `CatalogNavigation.ToggleSettings` | src/components/CatalogNavigator.ts:115 | an open side view closes, and none opens the settings |
| `CatalogNavigation.ToggleSettingsTwice` | src/components/CatalogNavigator.ts:115 | toggling twice from closed closes again; from open it ends on the settings |
| `CatalogNavigation.SelectedThread` | src/components/CatalogNavigator.ts:29-30 | there is a selected thread exactly when the selection is a position of the list, and it is the link there |
| `CatalogNavigation.ClickSelectionAsWritten` | src/components/CatalogNavigator.ts:95-97 | as written: a click selects the index `findIndex` returns, -1 exactly for an unlisted child, and the same as the corrected handler for a listed one |
| `CatalogNavigation.ClickOnUnlistedChild` | src/components/CatalogNavigator.ts:96-97 | as written, a click on an unlisted child selects -1, which names no thread |
| `CatalogNavigation.ClickSelection` | src/components/CatalogNavigator.ts:95-98 | corrected: a click on a listed child selects the first thread with that container; any other click leaves the selection |
| `CatalogNavigation.ClickSelectsClickedThread` | src/components/CatalogNavigator.ts:95-98 | after a click on a listed child, the selected thread is the clicked one |
| `CatalogNavigation.FirstClosest` | src/components/CatalogNavigator.ts:51-65 | the first index of a smallest distance; none exactly for no threads |
| `CatalogNavigation.FirstClosestSnoc` | src/components/CatalogNavigator.ts:61-64 | one more thread becomes the closest only when strictly nearer |
| `CatalogNavigation.ClosestIndex` | src/components/CatalogNavigator.ts:51-65 | the loop that starts at `Infinity` and moves to each strictly nearer thread finds the first closest one |
| `CatalogNavigation.Preselection` | src/components/CatalogNavigator.ts:40-68 | disabling sets a selection of a listed thread to none; enabled with threads and no selected thread selects the first closest; otherwise nothing changes |
| `CatalogNavigation.PreselectionSettles` | src/components/CatalogNavigator.ts:40-69 | running the effect again on its own result changes nothing |
| `CatalogNavigation.UnlistedClickJumpsToClosest` | src/components/CatalogNavigator.ts:96-97 | as written, a click on an unlisted child moves the selection to the thread nearest the centre; with the corrected handler it stays |
| `CatalogNavigation.Guarded` | src/components/CatalogNavigator.ts:119-130 | a disabled navigator passes a falsy shortcut; an enabled one passes the setting |
| `CatalogNavigation.Shortcuts` | src/components/CatalogNavigator.ts:118-134 | the navigator makes twelve `useKey` calls |
| `CatalogNavigation.DisabledRegistersOnlyUnguarded` | src/components/CatalogNavigator.ts:118-134 | disabled, only the UI toggle and the background-tab shortcut can register; enabled or not, the calls are the same actions in the same order |
| `CatalogNavigation.Run` | src/components/CatalogNavigator.ts:114-126 | the UI toggle changes only the side view; no other shortcut changes it |
| `CatalogNavigation.StartAndEnd` | src/components/CatalogNavigator.ts:125-126 | Start and End select the first and the last thread, and throw on an empty catalog |
| `CatalogNavigation.MovesFromSelection` | src/components/CatalogNavigator.ts:113-124 | from a listed thread, Left/Right/Up/Down/PageBack/PageForward select the thread 1, a row or three rows away, clamped to the first and the last thread; the side view is unchanged |
| `CatalogNavigation.NavByClamps` | src/components/CatalogNavigator.ts:105-113 | from a listed thread, `navBy(amount)` selects the target index clamped into the list |
| `CatalogNavigation.OpenShortcutsKeepState` | src/components/CatalogNavigator.ts:127-134 | the three open shortcuts leave the selection and the side view as they are |

## Left out

- Timers and throttling are left out. This covers `throttle` (`src/lib/utils.ts:144-184`), the 500 ms throttle of the `storage` handler, the 10 ms save timer and the 34 ms commit timer. They become explicit `Flush`, `Reconcile` and `Commit` calls and pending flags, because their meaning is wall-clock time.
- The DOM is left out. Its stand-ins are parameters:
  - `MutationObserver`, `ResizeObserver`, `querySelector` and `children` become sequences of opaque ids, serializer functions and a `measure` function. The model has no DOM.
  - Looking up the container and throwing when it is missing, in the watcher constructors, is left out. The constructors take the children directly.
- Layout geometry is left out.
  - `getBoundingClientRect` tops and centre distances enter as `real` parameters, and the distance formula and NaN are not modelled.
  - The MediaList centre-proximity initial selection (`src/components/MediaList.ts:26-43`) is floating-point DOM geometry.
  - Gesture direction detection with `Math.hypot` (`src/lib/hooks.ts:202-211`) is left out as well; the detected gesture is an input.
- Scrolling is left out: `scrollToView`, `scrollToItem`, and the page scroll of `selectDown` at the end of the list.
- The rendering, the cursor box, `onActivation`'s effects, and the opening of threads (`location.href`, `GM_openInTab`) are left out. The thread shortcuts change nothing in this model.
- Event plumbing is left out: `preventDefault`, `stopPropagation`, `withTarget`, `prevented`, `isOfType` and the effect dependency lists of `useEffect`. Registration and cleanup are explicit calls.
- The order in which listeners and callbacks of a `Set` are called is left out. Listeners are returned as a set, and the values passed to them are returned as outputs.
- JSON edge cases are left out:
  - stored JSON values that are not flat objects of scalars;
  - `NaN`, which is never `===` itself;
  - the prototype-chain answers of `prop in record`, as in `"toString" in {}`;
  - symbol properties of the proxy.
- MediaWatching.MediaWatcher.Serialize: the model keeps the list as keys into the index and hands listeners values. It therefore does not capture two things about object identity. First, `this.media` becomes a new array only when something was added (`src/lib/mediaWatcher.ts:79`); after a pass that only changed records, listeners get the same array object as before. Second, `Object.assign` (`src/lib/mediaWatcher.ts:66-67`) updates in place record objects that listeners already received in earlier `media` and `addedMedia` arrays.
- Utils.KeyIdParts: `key.length > 1` (`src/lib/utils.ts:199`) counts UTF-16 code units, while a Dafny `char` is one Unicode scalar value. So a key name made of one character outside the Basic Multilingual Plane has length 2 in JavaScript and shows Shift, but has length 1 in the model and does not.
- The error message texts are left out. Errors are datatype values.
- `postContainer` takes no part in the snapshot comparison of MediaWatcher, because a DOM element stringifies as `{}`.
- The keydown and keyup maps are one map keyed by event type and shortcut. `Hooks.KeyRegistriesIndependent` states that the two registries stay separate.
- Utils.EffectiveKey: the contract does not state the numpad-digit case. There the body reads `Number(key)` within 0..9 as a one-digit or blank key name and does not model other numeric texts such as `1e0`, which no numpad key reports.
- Utils.FormatSeconds: it takes whole seconds, so the `Math.round` of fractional seconds is not modelled. Its own contract states only the shape of the text, and `Utils.FormatSecondsRoundTrip` states the value.
- Utils.Clamp: it is over `real`, without NaN.
- Text.Lower: it lowers ASCII letters only, not the full Unicode case mapping of `toLowerCase`.
- Serializers: the `SERIALIZERS` table, its `urlMatches` expressions and the catalog serializers are not modelled; the catalog serializer is a parameter of CatalogWatcher.
- CatalogNavigation.NavToIndex: the `if (selectedThreadContainer)` test is taken as always true, because every thread link holds its element.
- The framework glue is not part of this model: `useElementSize`, `useWindowDimensions`, `useForceUpdate`, the bootstrap in `src/index.ts`, the UI components, the styles and the settings UI.

## Findings

| source | as written | input that shows it | evidently intended | confidence | as-written member | corrected member |
|---|---|---|---|---|---|---|
| src/components/MediaList.ts:135-136 | page forward targets `min(i + 3*itemsPerRow, media.length)`, which `selectAndScrollTo` refuses | ten items, one per row, item 8 selected: the target is 10 and the selection stays on 8 | cap at `media.length - 1`, as `selectDown` does, so that the last item is selected | not executed | `MediaList.PageForwardAsWritten`, `MediaList.Select`, `MediaList.PageForwardStallsNearEnd`, `MediaList.PageForwardAsWrittenRefused` | `MediaList.PageForwardTarget`, `MediaList.SelectCorrected`, `MediaList.CorrectedPageForwardClamps` |
| src/components/CatalogNavigator.ts:96-97 | `findIndex` returns -1 for a child with no thread link, and -1 passes the `!= null` test | a click on a catalog child whose serializer gives no URL, while thread `s` is selected: the selection becomes -1, and the preselection effect then jumps to the thread nearest the centre | select only when the index is not -1, so the selection stays | not executed | `CatalogNavigation.ClickSelectionAsWritten`, `CatalogNavigation.ClickOnUnlistedChild`, `CatalogNavigation.UnlistedClickJumpsToClosest` | `CatalogNavigation.ClickSelection`, `CatalogNavigation.ClickSelectsClickedThread` |
