/**
 * src/lib/syncedSettings.ts and src/lib/syncedStorage.ts, which hold the same
 * logic under two names: a key/value record kept in a `localStorage` slot as
 * JSON, with a guarded property interface, change listeners, a debounced
 * save and reconciliation with writes made by other tabs.
 *
 * The slot is the field `store`. The 10 ms save timer is the `pending` flag
 * plus an explicit `Flush`, and the throttled `storage` event handler is an
 * explicit `Reconcile`; another tab's write is `ExternalWrite`.
 */
module SyncedSettingsModel {
  import opened Wrappers

  /** A subscribed listener callback. */
  type ListenerId = nat

  /** The scalar values a record holds: `null | undefined | number | string | boolean`. */
  datatype Value = Null | Undefined | Num(n: real) | Str(s: string) | Bool(b: bool)

  type Record = map<string, Value>

  /** The content of the `localStorage` slot. */
  datatype Stored =
    | Missing              // `getItem` returns null
    | EmptyText            // the empty string, which is falsy
    | Corrupt              // text on which `JSON.parse` throws
    | Json(fields: Record) // a JSON object of scalar fields

  /** `record[key]`: a missing key reads as `undefined`. */
  function Lookup(record: Record, key: string): Value {
    if key in record then record[key] else Undefined
  }

  /** `load`: the defaults overlaid with the stored fields, or a copy of the defaults. */
  function Load(defaults: Record, stored: Stored): (r: Record)
    ensures r.Keys == defaults.Keys + (if stored.Json? then stored.fields.Keys else {})
    ensures stored.Json? ==> forall k :: k in stored.fields ==> r[k] == stored.fields[k]
    ensures forall k :: k in defaults && !(stored.Json? && k in stored.fields) ==> r[k] == defaults[k]
  {
    match stored
    case Json(fields) => defaults + fields
    case _ => defaults
  }

  /** `JSON.stringify` leaves out the fields whose value is `undefined`. */
  function Serialized(record: Record): (r: Record)
    ensures forall k :: k in r <==> k in record && record[k] != Undefined
    ensures forall k :: k in r ==> r[k] == record[k]
  {
    map k | k in record && record[k] != Undefined :: record[k]
  }

  predicate NoUndefined(record: Record) {
    forall k :: k in record ==> record[k] != Undefined
  }

  /**
   * What a flush writes is what a later load reads back: a record without
   * `undefined` fields that covers the defaults survives the round trip.
   */
  lemma FlushLoadRoundTrip(defaults: Record, record: Record)
    requires NoUndefined(record) && defaults.Keys <= record.Keys
    ensures Load(defaults, Json(Serialized(record))) == record
  {
    assert Serialized(record) == record;
  }

  /** A field set to `undefined` is not written, so the next load reads its default. */
  lemma UndefinedFieldLoadsDefault(defaults: Record, record: Record, key: string)
    requires key in defaults && key in record && record[key] == Undefined
    ensures Load(defaults, Json(Serialized(record)))[key] == defaults[key]
  {
  }

  /** The keys whose loaded value is `!==` the current one. */
  function Differing(record: Record, newData: Record): (d: set<string>)
    ensures forall k :: k in d <==> k in newData && newData[k] != Lookup(record, k)
  {
    set k | k in newData && newData[k] != Lookup(record, k)
  }

  /** The record after reconciliation: the differing keys take the loaded value. */
  function Reconciled(record: Record, newData: Record): (r: Record)
    ensures r.Keys == record.Keys + Differing(record, newData)
    ensures forall k :: k in Differing(record, newData) ==> r[k] == newData[k]
    ensures forall k :: k in record && k !in Differing(record, newData) ==> r[k] == record[k]
  {
    var d := Differing(record, newData);
    map k | k in record.Keys + d :: if k in d then newData[k] else record[k]
  }

  /** A record that agrees with the reconciled one key by key is the reconciled one. */
  lemma ReconciledFromPointwise(before: Record, newData: Record, rec: Record)
    requires forall k :: k in rec <==> k in before || (k in newData && newData[k] != Lookup(before, k))
    requires forall k :: k in rec ==>
               rec[k] == if k in newData && newData[k] != Lookup(before, k) then newData[k] else Lookup(before, k)
    ensures rec == Reconciled(before, newData)
  {
  }

  /** After reconciliation every loaded key reads its loaded value. */
  lemma ReconciledAgrees(record: Record, newData: Record)
    ensures forall k :: k in newData ==> Lookup(Reconciled(record, newData), k) == newData[k]
  {
  }

  /** A second reconciliation against the same data finds nothing that differs. */
  lemma ReconcileIsIdempotent(record: Record, newData: Record)
    ensures Differing(Reconciled(record, newData), newData) == {}
    ensures Reconciled(Reconciled(record, newData), newData) == Reconciled(record, newData)
  {
    var r := Reconciled(record, newData);
    ReconciledAgrees(record, newData);
    assert Differing(r, newData) == {};
  }

  /** A tab that reads back what it wrote itself sees no difference. */
  lemma OwnWriteIsQuiet(defaults: Record, record: Record)
    requires NoUndefined(record) && defaults.Keys <= record.Keys
    ensures Differing(record, Load(defaults, Json(Serialized(record)))) == {}
  {
    FlushLoadRoundTrip(defaults, record);
  }

  /**
   * The loop of the `storage` handler: each loaded key whose value is `!==`
   * the record's is copied over, and `hasChanges` tells whether any was.
   */
  method ReconcileRecord(record: Record, newData: Record) returns (r: Record, hasChanges: bool)
    ensures r == Reconciled(record, newData)
    ensures hasChanges <==> Differing(record, newData) != {}
  {
    r := record;
    hasChanges := false;
    var remaining := newData.Keys;
    ghost var done: set<string> := {};
    while remaining != {}
      invariant remaining <= newData.Keys && done == newData.Keys - remaining
      invariant forall k :: k in r <==> k in record || (k in done && newData[k] != Lookup(record, k))
      invariant forall k :: k in r ==>
                  r[k] == if k in done && newData[k] != Lookup(record, k) then newData[k] else Lookup(record, k)
      invariant hasChanges <==> exists k :: k in done && newData[k] != Lookup(record, k)
      decreases |remaining|
    {
      var key :| key in remaining;
      if newData[key] != Lookup(r, key) {
        hasChanges := true;
        r := r[key := newData[key]];
      }
      remaining := remaining - {key};
      done := done + {key};
    }
    ReconciledFromPointwise(record, newData, r);
  }

  /** The names `prop in control` finds: the control members. */
  const ControlNames: set<string> := {"_assign", "_reset", "_subscribe", "_unsubscribe", "_defaults"}

  /** What a property read returns. */
  datatype Property = ControlMember(name: string) | Defaults(record: Record) | Field(value: Value)

  /** The errors the proxy throws. */
  datatype Error = UnknownProperty(prop: string) | UnknownKey(prop: string)

  /** One record behind the proxy `syncedSettings(localStorageKey, defaults)` returns. */
  class SyncedSettings {
    const defaults: Record
    var record: Record
    /** A save is scheduled (`savingPromise` is set). */
    var pending: bool
    var listeners: set<ListenerId>
    /** The `localStorage` slot of this record's key. */
    var store: Stored

    /** Creation loads the record from the slot. */
    constructor(defaults: Record, store: Stored)
      ensures this.defaults == defaults && this.store == store
      ensures record == Load(defaults, store) && !pending && listeners == {}
    {
      this.defaults := defaults;
      this.store := store;
      record := Load(defaults, store);
      pending := false;
      listeners := {};
    }

    /** The proxy's `get`: control members first, then the record's fields; anything else throws. */
    function Get(prop: string): (r: Result<Property, Error>)
      reads this
      ensures r.Err? <==> prop !in ControlNames && prop !in record
      ensures prop == "_defaults" ==> r == Ok(Defaults(defaults))
      ensures prop in ControlNames && prop != "_defaults" ==> r == Ok(ControlMember(prop))
      ensures prop !in ControlNames && prop in record ==> r == Ok(Field(record[prop]))
    {
      if prop == "_defaults" then Ok(Defaults(defaults))
      else if prop in ControlNames then Ok(ControlMember(prop))
      else if prop in record then Ok(Field(record[prop]))
      else Err(UnknownProperty(prop))
    }

    /** `save`: schedules a write unless one is already scheduled. */
    method Save()
      modifies this
      ensures pending
      ensures record == old(record) && listeners == old(listeners) && store == old(store)
    {
      if pending {
        return;
      }
      pending := true;
    }

    /** The scheduled write runs: the whole current record goes to the slot. */
    method Flush()
      modifies this
      ensures !pending
      ensures store == if old(pending) then Json(Serialized(record)) else old(store)
      ensures record == old(record) && listeners == old(listeners)
    {
      if pending {
        store := Json(Serialized(record));
        pending := false;
      }
    }

    /**
     * The proxy's `set`: a key the record has is updated, a save is requested
     * and every listener is called; any other key throws and nothing changes.
     */
    method Set(prop: string, value: Value) returns (r: Result<set<ListenerId>, Error>)
      modifies this
      ensures old(prop in record) ==>
        record == old(record)[prop := value] && pending && r == Ok(listeners)
      ensures old(prop !in record) ==>
        record == old(record) && pending == old(pending) && r == Err(UnknownKey(prop))
      ensures listeners == old(listeners) && store == old(store)
    {
      if prop in record {
        record := record[prop := value];
        Save();
        return Ok(listeners);
      }
      return Err(UnknownKey(prop));
    }

    /** `_assign`: all given fields are merged (unknown keys too), then one save request and one notification round. */
    method Assign(obj: Record) returns (notified: set<ListenerId>)
      modifies this
      ensures record == old(record) + obj && pending && notified == listeners
      ensures listeners == old(listeners) && store == old(store)
    {
      record := record + obj;
      Save();
      notified := listeners;
    }

    /** `_reset`: `_assign(defaults)`. */
    method Reset() returns (notified: set<ListenerId>)
      modifies this
      ensures record == old(record) + defaults && pending && notified == listeners
      ensures forall k :: k in defaults && k !in ControlNames ==> Get(k) == Ok(Field(defaults[k]))
      ensures listeners == old(listeners) && store == old(store)
    {
      notified := Assign(defaults);
    }

    /** `_subscribe`. */
    method Subscribe(l: ListenerId)
      modifies this
      ensures listeners == old(listeners) + {l}
      ensures record == old(record) && pending == old(pending) && store == old(store)
    {
      listeners := listeners + {l};
    }

    /** `_unsubscribe`, also what the function `_subscribe` returns does. */
    method Unsubscribe(l: ListenerId)
      modifies this
      ensures listeners == old(listeners) - {l}
      ensures record == old(record) && pending == old(pending) && store == old(store)
    {
      listeners := listeners - {l};
    }

    /** Another tab writes the slot. */
    method ExternalWrite(s: Stored)
      modifies this
      ensures store == s
      ensures record == old(record) && pending == old(pending) && listeners == old(listeners)
    {
      store := s;
    }

    /**
     * The `storage` event handler: the slot is loaded again and every key
     * whose loaded value differs is copied over; the listeners are called
     * once, and only if some key differed.
     */
    method Reconcile() returns (notified: set<ListenerId>)
      modifies this
      ensures var newData := Load(defaults, store);
              record == Reconciled(old(record), newData)
              && notified == (if Differing(old(record), newData) != {} then listeners else {})
      ensures listeners == old(listeners) && store == old(store) && pending == old(pending)
    {
      var newData := Load(defaults, store);
      var hasChanges;
      record, hasChanges := ReconcileRecord(record, newData);
      notified := if hasChanges then listeners else {};
    }
  }
}
