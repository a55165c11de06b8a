/** The local-storage layer of the offline-first pages: lists of records
    kept under fixed keys, each record flagged `pendingSync` until the
    server has acknowledged it, and a preferences object.

    Each key is a slot that is absent, holds text `JSON.parse` rejects, or
    holds a parsed value; a record is a JSON object, a map from property
    names to values, where spreading `{...a, ...b}` is the right-biased map
    union `a + b`. `Date.now()` and `Math.random()` enter as the ids they
    produce, and whether `setItem` succeeds (it throws when the quota is
    exceeded) as a flag. */
module SyncStorage {
  import opened Wrappers

  datatype Json = JNull | JBool(b: bool) | JNum(n: int) | JStr(s: string) | JArr(items: seq<Json>) | JObj(fields: map<string, Json>)

  type Entry = map<string, Json>

  datatype Slot<T> = Absent | Corrupt | Held(value: T)

  const LOCAL_ID := "localId"
  const PENDING_SYNC := "pendingSync"

  /** `localStorageManager.get`: `null` for an absent key and for text that
      does not parse. */
  function Get<T>(slot: Slot<T>): (r: Option<T>)
    ensures r.None? <==> slot.Absent? || slot.Corrupt?
    ensures r.Some? ==> slot == Held(r.value)
  {
    if slot.Held? then Some(slot.value) else None
  }

  /** `localStorageManager.save`: the value replaces the slot when the
      write succeeds; otherwise the slot is kept and `false` returned. */
  function Save<T>(slot: Slot<T>, value: T, writable: bool): (r: (bool, Slot<T>))
    ensures r.0 == writable
    ensures writable ==> Get(r.1) == Some(value)
    ensures !writable ==> r.1 == slot
  {
    if writable then (true, Held(value)) else (false, slot)
  }

  /** JavaScript truthiness of a property; an absent one is `undefined`. */
  predicate Truthy(v: Option<Json>) {
    match v
    case None => false
    case Some(j) =>
      match j
      case JNull => false
      case JBool(b) => b
      case JNum(n) => n != 0
      case JStr(s) => s != ""
      case JArr(_) => true
      case JObj(_) => true
  }

  function Field(e: Entry, k: string): Option<Json> {
    if k in e then Some(e[k]) else None
  }

  predicate Pending(e: Entry) {
    Truthy(Field(e, PENDING_SYNC))
  }

  predicate HasLocalId(e: Entry, id: int) {
    Field(e, LOCAL_ID) == Some(JNum(id))
  }

  /** `getAllRequests` / `getAllData`: the stored list, or `[]`. */
  function All(slot: Slot<seq<Entry>>): (r: seq<Entry>)
    ensures slot.Held? ==> r == slot.value
    ensures !slot.Held? ==> r == []
  {
    Get(slot).GetOr([])
  }

  /** A record as it is stored: the fields given, then a local id and the
      flag, which override fields of the same names. */
  function Stamped(data: Entry, localId: int): (e: Entry)
    ensures HasLocalId(e, localId) && Pending(e)
    ensures forall k :: k in data && k != LOCAL_ID && k != PENDING_SYNC ==> k in e && e[k] == data[k]
    ensures e.Keys == data.Keys + {LOCAL_ID, PENDING_SYNC}
  {
    data + map[LOCAL_ID := JNum(localId), PENDING_SYNC := JBool(true)]
  }

  /** `saveRequest` / `saveData`: the record is appended, stamped with the
      current time as its local id and flagged for synchronisation. */
  function SaveRecord(slot: Slot<seq<Entry>>, data: Entry, now: int, writable: bool): (r: (bool, Slot<seq<Entry>>))
    ensures r.0 == writable
    ensures writable ==> All(r.1) == All(slot) + [Stamped(data, now)]
    ensures !writable ==> r.1 == slot
  {
    Save(slot, All(slot) + [Stamped(data, now)], writable)
  }

  /** `saveMultipleData`: every record appended in order, each stamped with
      its own id and flagged. */
  function SaveMany(slot: Slot<seq<Entry>>, data: seq<Entry>, ids: seq<int>, writable: bool): (r: (bool, Slot<seq<Entry>>))
    requires |ids| == |data|
    ensures r.0 == writable
    ensures writable ==> |All(r.1)| == |All(slot)| + |data| && All(r.1)[..|All(slot)|] == All(slot)
    ensures writable ==> forall i :: 0 <= i < |data| ==>
      All(r.1)[|All(slot)| + i] == Stamped(data[i], ids[i]) && Pending(All(r.1)[|All(slot)| + i])
    ensures !writable ==> r.1 == slot
  {
    var stamped := seq(|data|, i requires 0 <= i < |data| => Stamped(data[i], ids[i]));
    var r := Save(slot, All(slot) + stamped, writable);
    assert writable ==> All(r.1) == All(slot) + stamped;
    r
  }

  /** Position of the first record with the local id (`findIndex`). */
  function IndexOfId(es: seq<Entry>, id: int): (r: Option<nat>)
    ensures r.None? <==> forall i :: 0 <= i < |es| ==> !HasLocalId(es[i], id)
    ensures r.Some? ==> (r.value < |es| && HasLocalId(es[r.value], id)
      && forall i :: 0 <= i < r.value ==> !HasLocalId(es[i], id))
  {
    if es == [] then None
    else if HasLocalId(es[0], id) then Some(0)
    else
      var rest := IndexOfId(es[1..], id);
      if rest.Some? then Some(rest.value + 1) else None
  }

  /** `{...old, ...changes, pendingSync: flag}`. */
  function Merged(previous: Entry, changes: Entry, flag: bool): (e: Entry)
    ensures Field(e, PENDING_SYNC) == Some(JBool(flag))
    ensures forall k :: k != PENDING_SYNC ==> Field(e, k) == (if k in changes then Some(changes[k]) else Field(previous, k))
  {
    previous + changes + map[PENDING_SYNC := JBool(flag)]
  }

  /** `updateRequest` (flag `true`) and `markAsSynced` (flag `false`):
      `false` and no write when no record has the local id; otherwise the
      first such record is merged with the changes, the flag is forced, and
      every other record stays where it was. */
  function UpdateRecord(slot: Slot<seq<Entry>>, id: int, changes: Entry, flag: bool, writable: bool): (r: (bool, Slot<seq<Entry>>))
    ensures IndexOfId(All(slot), id).None? ==> r == (false, slot)
    ensures IndexOfId(All(slot), id).Some? ==> r.0 == writable && (!writable ==> r.1 == slot)
    ensures IndexOfId(All(slot), id).Some? && writable ==>
      var k := IndexOfId(All(slot), id).value;
      |All(r.1)| == |All(slot)| && All(r.1)[k] == Merged(All(slot)[k], changes, flag)
      && forall i :: 0 <= i < |All(slot)| && i != k ==> All(r.1)[i] == All(slot)[i]
  {
    var es := All(slot);
    match IndexOfId(es, id)
    case None => (false, slot)
    case Some(k) => Save(slot, es[k := Merged(es[k], changes, flag)], writable)
  }

  function UpdateRequest(slot: Slot<seq<Entry>>, id: int, changes: Entry, writable: bool): (r: (bool, Slot<seq<Entry>>))
    ensures r == UpdateRecord(slot, id, changes, true, writable)
    ensures r.0 ==> Pending(All(r.1)[IndexOfId(All(slot), id).value])
  {
    UpdateRecord(slot, id, changes, true, writable)
  }

  function MarkAsSynced(slot: Slot<seq<Entry>>, id: int, serverData: Entry, writable: bool): (r: (bool, Slot<seq<Entry>>))
    ensures r == UpdateRecord(slot, id, serverData, false, writable)
    ensures r.0 ==> !Pending(All(r.1)[IndexOfId(All(slot), id).value])
  {
    UpdateRecord(slot, id, serverData, false, writable)
  }

  /** `removeRequest`: every record with the local id goes, the rest keep
      their order; the list is written back even when nothing matched. */
  function RemoveRecord(slot: Slot<seq<Entry>>, id: int, writable: bool): (r: (bool, Slot<seq<Entry>>))
    ensures r.0 == writable && (!writable ==> r.1 == slot)
    ensures writable ==> All(r.1) == WithoutId(All(slot), id)
  {
    Save(slot, WithoutId(All(slot), id), writable)
  }

  function WithoutId(es: seq<Entry>, id: int): (r: seq<Entry>)
    ensures forall e :: e in r <==> e in es && !HasLocalId(e, id)
    ensures |r| <= |es|
  {
    if es == [] then []
    else if HasLocalId(es[0], id) then WithoutId(es[1..], id)
    else [es[0]] + WithoutId(es[1..], id)
  }

  /** `getPendingSyncs`: the flagged records, in stored order. */
  function PendingSyncs(slot: Slot<seq<Entry>>): (r: seq<Entry>)
    ensures forall e :: e in r <==> e in All(slot) && Pending(e)
  {
    PendingOf(All(slot))
  }

  function PendingOf(es: seq<Entry>): (r: seq<Entry>)
    ensures forall e :: e in r <==> e in es && Pending(e)
    ensures |r| <= |es|
  {
    if es == [] then []
    else
      var prefix := PendingOf(es[..|es| - 1]);
      assert es == es[..|es| - 1] + [es[|es| - 1]];
      if Pending(es[|es| - 1]) then prefix + [es[|es| - 1]] else prefix
  }

  /** A saved record joins the end of the pending list. */
  lemma SavedRecordIsPending(slot: Slot<seq<Entry>>, data: Entry, now: int)
    ensures PendingSyncs(SaveRecord(slot, data, now, true).1) == PendingSyncs(slot) + [Stamped(data, now)]
  {
    var es := All(SaveRecord(slot, data, now, true).1);
    assert es[..|es| - 1] == All(slot);
  }

  /** Replacing one pending record by a synchronised one shortens the
      pending list by exactly one. */
  lemma {:induction false} SyncingOneLeavesOneFewer(es: seq<Entry>, k: nat, e: Entry)
    requires k < |es| && Pending(es[k]) && !Pending(e)
    ensures |PendingOf(es[k := e])| == |PendingOf(es)| - 1
    decreases |es|
  {
    var n := |es| - 1;
    var es' := es[k := e];
    assert es'[..n] == if k == n then es[..n] else es[..n][k := e];
    if k < n {
      SyncingOneLeavesOneFewer(es[..n], k, e);
    }
  }

  /** Marking an existing pending record as synchronised takes exactly it
      off the pending list. */
  lemma MarkAsSyncedShortensPending(slot: Slot<seq<Entry>>, id: int, serverData: Entry)
    requires IndexOfId(All(slot), id).Some? && Pending(All(slot)[IndexOfId(All(slot), id).value])
    ensures |PendingSyncs(MarkAsSynced(slot, id, serverData, true).1)| == |PendingSyncs(slot)| - 1
  {
    var es := All(slot);
    var k := IndexOfId(es, id).value;
    SyncingOneLeavesOneFewer(es, k, Merged(es[k], serverData, false));
  }

  /** A record saved under a fresh local id can be marked as synchronised
      by that id, and then carries the server's fields and no flag. */
  lemma SaveThenMark(slot: Slot<seq<Entry>>, data: Entry, now: int, serverData: Entry)
    requires forall i :: 0 <= i < |All(slot)| ==> !HasLocalId(All(slot)[i], now)
    ensures var saved := SaveRecord(slot, data, now, true).1;
      var r := MarkAsSynced(saved, now, serverData, true);
      r.0 && IndexOfId(All(saved), now) == Some(|All(slot)|)
      && !Pending(All(r.1)[|All(slot)|]) && All(r.1)[..|All(slot)|] == All(slot)
  {
    var saved := SaveRecord(slot, data, now, true).1;
    assert All(saved)[|All(slot)|] == Stamped(data, now);
    var r := MarkAsSynced(saved, now, serverData, true);
    assert All(r.1)[..|All(slot)|] == All(slot);
  }

  /** `getPreferences`: the stored object, or `{}`. */
  function Preferences(slot: Slot<Entry>): (r: Entry)
    ensures slot.Held? ==> r == slot.value
    ensures !slot.Held? ==> r == map[]
  {
    Get(slot).GetOr(map[])
  }

  /** `updatePreference`: one key set, every other preference kept. */
  function UpdatePreference(slot: Slot<Entry>, key: string, value: Json, writable: bool): (r: (bool, Slot<Entry>))
    ensures r.0 == writable && (!writable ==> r.1 == slot)
    ensures writable ==> Field(Preferences(r.1), key) == Some(value)
    ensures writable ==> forall k :: k != key ==> Field(Preferences(r.1), k) == Field(Preferences(slot), k)
  {
    Save(slot, Preferences(slot)[key := value], writable)
  }

  /** `updateLastSync` / `getLastSync`: the ISO time string written is the
      one read back. */
  function UpdateLastSync(slot: Slot<string>, nowIso: string, writable: bool): (r: (bool, Slot<string>))
    ensures writable ==> Get(r.1) == Some(nowIso)
    ensures !writable ==> r == (false, slot)
  {
    Save(slot, nowIso, writable)
  }
}
