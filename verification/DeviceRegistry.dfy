/**
  The registry of paired devices as a store of keys, with the merge and truncation behaviour of
  the calls the service makes on it.
  */
module DeviceRegistry {
  import opened Bytes
  import opened DeviceIds

  const STATUS_ACTIVE: U32 := 1
  const STATUS_REVOKED: U32 := 0
  const MAX_DEVICES_PER_ACCOUNT := 5
  const TEXT_BUFFER := 256  // wide characters, terminator included
  const KEY_BUFFER := 256

  /** The values under one device key. An absent public key is the empty one. */
  datatype Stored = Stored(status: U32, name: string, sid: string, key: Octets, pairedTime: U64, lastSeen: U64)

  const BLANK := Stored(STATUS_REVOKED, "", "", [], 0, 0)

  type Store = map<string, Stored>

  /** What the service hands to the registry, and what it gets back. */
  datatype DeviceRecord = DeviceRecord(name: string, sid: string, key: Octets, status: U32, pairedTime: U64,
                                       lastSeen: U64)

  function KeyOf(store: Store, id: string): Octets {
    if id in store then store[id].key else []
  }

  /** An empty key in the record leaves the stored one in place. */
  function Written(store: Store, id: string, r: DeviceRecord): Store {
    var key := if r.key != [] then r.key else KeyOf(store, id);
    store[id := Stored(r.status, r.name, r.sid, key, r.pairedTime, r.lastSeen)]
  }

  function WithStatus(store: Store, id: string, status: U32): Store {
    if id in store then store[id := store[id].(status := status)] else store
  }

  function Seen(store: Store, id: string, at: U64): Store {
    if id in store then store[id := store[id].(lastSeen := at)] else store
  }

  function UpToNul(t: string): string {
    if t == "" || t[0] == '\0' then "" else [t[0]] + UpToNul(t[1..])
  }

  /** Text that does not fit the read buffer with its terminator is not returned at all. */
  function TextBack(t: string): string {
    if |t| + 1 > TEXT_BUFFER then "" else UpToNul(t)
  }

  /** Neither is a key over 256 octets. */
  function KeyBack(k: Octets): Octets {
    if |k| > KEY_BUFFER then [] else k
  }

  function Lookup(store: Store, id: string): Option<DeviceRecord> {
    if id !in store then None
    else
      var s := store[id];
      Some(DeviceRecord(TextBack(s.name), TextBack(s.sid), KeyBack(s.key), s.status, s.pairedTime, s.lastSeen))
  }

  predicate IsActive(store: Store, id: string) {
    Lookup(store, id).Some? && Lookup(store, id).value.status == STATUS_ACTIVE
  }

  predicate IsActiveFor(store: Store, id: string, sid: string) {
    IsActive(store, id) && Lookup(store, id).value.sid == sid
  }

  /** The devices that count against an account. */
  function ActiveFor(store: Store, sid: string): set<string> {
    set id | id in store && IsActiveFor(store, id, sid)
  }

  function CountIn(store: Store, ids: seq<string>, sid: string): nat {
    if ids == [] then 0
    else CountIn(store, ids[..|ids| - 1], sid) + if IsActiveFor(store, ids[|ids| - 1], sid) then 1 else 0
  }

  ghost function ActiveAmong(store: Store, ids: seq<string>, sid: string): set<string> {
    set id | id in ids && IsActiveFor(store, id, sid)
  }

  lemma {:induction false} NoneAmong(store: Store, sid: string)
    ensures ActiveAmong(store, [], sid) == {}
  {
  }

  lemma {:induction false} OneMoreAmong(store: Store, ids: seq<string>, last: string, sid: string)
    requires last !in ids
    ensures |ActiveAmong(store, ids + [last], sid)| ==
            |ActiveAmong(store, ids, sid)| + if IsActiveFor(store, last, sid) then 1 else 0
  {
    hide IsActiveFor;
    var before := ActiveAmong(store, ids, sid);
    assert ActiveAmong(store, ids + [last], sid) == if IsActiveFor(store, last, sid) then before + {last} else before;
  }

  lemma {:induction false} CountIsCardinality(store: Store, ids: seq<string>, sid: string)
    requires forall i, j :: 0 <= i < j < |ids| ==> ids[i] != ids[j]
    ensures CountIn(store, ids, sid) == |ActiveAmong(store, ids, sid)|
  {
    hide IsActiveFor, ActiveAmong;
    if ids == [] {
      assert ActiveAmong(store, [], sid) == {} by { NoneAmong(store, sid); }
    } else {
      var front, last := ids[..|ids| - 1], ids[|ids| - 1];
      CountIsCardinality(store, front, sid);
      assert ids == front + [last];
      OneMoreAmong(store, front, last, sid);
    }
  }

  class Registry {
    var store: Store

    constructor ()
      ensures store == map[]
    {
      store := map[];
    }

    /** `created` tells whether the device subkey could be opened or created. */
    method WriteDeviceRecord(deviceId: DeviceId, record: DeviceRecord, created: bool) returns (ok: bool)
      modifies this
      ensures ok == created
      ensures store == if created then Written(old(store), DeviceIdToString(deviceId), record) else old(store)
    {
      if !created {
        return false;
      }
      var id := DeviceIdToString(deviceId);
      var values := if id in store then store[id] else BLANK;
      values := values.(status := record.status);
      values := values.(name := record.name);
      values := values.(sid := record.sid);
      if record.key != [] {
        values := values.(key := record.key);
      }
      values := values.(pairedTime := record.pairedTime);
      values := values.(lastSeen := record.lastSeen);
      store := store[id := values];
      return true;
    }

    method ReadDeviceRecord(id: string) returns (result: Option<DeviceRecord>)
      ensures result == Lookup(store, id)
    {
      if id !in store {
        return None;
      }
      var values := store[id];
      var out := DeviceRecord("", "", [], values.status, 0, 0);
      if |values.name| + 1 <= TEXT_BUFFER {
        out := out.(name := UpToNul(values.name));
      }
      if |values.sid| + 1 <= TEXT_BUFFER {
        out := out.(sid := UpToNul(values.sid));
      }
      if 0 < |values.key| <= KEY_BUFFER {
        out := out.(key := values.key);
      }
      out := out.(pairedTime := values.pairedTime);
      out := out.(lastSeen := values.lastSeen);
      return Some(out);
    }

    method SetDeviceStatus(id: string, status: U32) returns (ok: bool)
      modifies this
      ensures ok == (id in old(store))
      ensures store == WithStatus(old(store), id, status)
    {
      if id !in store {
        return false;
      }
      store := store[id := store[id].(status := status)];
      return true;
    }

    method UpdateLastSeen(id: string, now: U64) returns (ok: bool)
      modifies this
      ensures ok == (id in old(store))
      ensures store == Seen(old(store), id, now)
    {
      if id !in store {
        return false;
      }
      store := store[id := store[id].(lastSeen := now)];
      return true;
    }

    /** `permitted` is false when the key exists and the system refuses to delete it. */
    method DeleteDeviceRecord(id: string, permitted: bool) returns (ok: bool)
      modifies this
      ensures ok == (permitted || id !in old(store))
      ensures store == if permitted then old(store) - {id} else old(store)
    {
      if id !in store {
        assert store - {id} == store;
        return true;
      }
      if !permitted {
        return false;
      }
      store := store - {id};
      return true;
    }

    /** `ids` is the order in which the system enumerates the subkeys. */
    method CountActiveDevicesForAccount(sid: string, ids: seq<string>) returns (count: nat)
      requires forall id :: id in ids <==> id in store
      requires forall i, j :: 0 <= i < j < |ids| ==> ids[i] != ids[j]
      ensures count == |ActiveFor(store, sid)|
    {
      count := 0;
      for i := 0 to |ids|
        invariant count == CountIn(store, ids[..i], sid)
      {
        assert ids[..i + 1][..i] == ids[..i];
        var record := ReadDeviceRecord(ids[i]);
        if record.Some? && record.value.status == STATUS_ACTIVE && record.value.sid == sid {
          count := count + 1;
        }
      }
      assert ids[..|ids|] == ids;
      CountIsCardinality(store, ids, sid);
      assert ActiveAmong(store, ids, sid) == ActiveFor(store, sid);
    }
  }

  /** What the read buffer makes of a text: nothing if it is too long, else the part before any NUL. */
  ghost predicate ReadsAs(t: string, back: string) {
    if |t| >= 256 then back == ""
    else back <= t && '\0' !in back && (back == t || t[|back|] == '\0')
  }

  lemma {:induction false} NulFree(t: string)
    ensures var u := UpToNul(t); u <= t && '\0' !in u && (u == t || t[|u|] == '\0')
  {
    if t != "" && t[0] != '\0' {
      NulFree(t[1..]);
    }
  }

  lemma {:induction false} TextReadsAs(t: string)
    ensures ReadsAs(t, TextBack(t))
  {
    NulFree(t);
  }

  /** Reading back a written record: text up to a NUL and keys come back if they fit their buffers. */
  lemma {:induction false} ReadAfterWrite(store: Store, id: string, r: DeviceRecord)
    ensures var back := Lookup(Written(store, id, r), id);
            && back.Some?
            && back.value.status == r.status && back.value.pairedTime == r.pairedTime &&
              back.value.lastSeen == r.lastSeen
            && (|r.key| <= 256 && r.key != [] ==> back.value.key == r.key)
            && (|r.key| > 256 ==> back.value.key == [])
            && (r.key == [] ==> back.value.key == KeyBack(KeyOf(store, id)))
            && ReadsAs(r.name, back.value.name) && ReadsAs(r.sid, back.value.sid)
    ensures forall other :: other != id ==> Lookup(Written(store, id, r), other) == Lookup(store, other)
  {
    TextReadsAs(r.name);
    TextReadsAs(r.sid);
  }
}
