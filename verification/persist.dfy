/** The registry with `Device::save` wired in, as `Monitor::addDevice` and
    `Monitor::updateDevice` call it, against a store that accepts every
    statement and hands out consecutive auto-increment ids. Used to follow
    what the ARP handler writes to the device table. */
module Persistence {
  import opened Devices
  import opened Monitor
  import Sniffer

  /** The device table as the store sees it: the statements executed, in
      order, and the last auto-increment id handed out. */
  datatype Store = Store(log: seq<Statement>, lastId: nat)

  /** `save` against the store: an unsaved device (id 0) is inserted and
      takes the next id; a saved one updates its row. */
  function SaveTo(db: Store, d: Device): (res: (Device, Store))
    ensures d.id == 0 ==> res.0 == d.(id := db.lastId + 1) && res.1 == Store(db.log + [Insert(d)], db.lastId + 1)
    ensures d.id != 0 ==> res.0 == d && res.1 == Store(db.log + [Update(d.id, d)], db.lastId)
  {
    var saved := Save(d, Stored(db.lastId + 1));
    (saved.device, Store(db.log + [saved.statement], if saved.statement.Insert? then db.lastId + 1 else db.lastId))
  }

  /** `Monitor::addDevice`: the element under the device's address, new or
      old, is saved in place. */
  function AddSaved(r: Registry, db: Store, d: Device): (res: (Registry, Store, bool))
    ensures res.2 <==> d.ip !in r.devices
    ensures res.0 == r.(devices := r.devices[d.ip := SaveTo(db, if res.2 then d else r.devices[d.ip]).0])
    ensures res.1 == SaveTo(db, if res.2 then d else r.devices[d.ip]).1
  {
    var (r1, inserted) := AddDevice(r, d);
    var (stored, db') := SaveTo(db, r1.devices[d.ip]);
    (r1.(devices := r1.devices[d.ip := stored]), db', inserted)
  }

  /** `Monitor::updateDevice`: an unknown address is an error and touches
      nothing; otherwise the given device replaces the element and is saved
      in place. */
  function UpdateSaved(r: Registry, db: Store, ip: string, d: Device): (res: (Registry, Store, bool))
    ensures res.2 <==> ip !in r.devices
    ensures res.2 ==> res.0 == r && res.1 == db
    ensures !res.2 ==>
      && res.0.devices == r.devices[ip := SaveTo(db, d).0]
      && res.1 == SaveTo(db, d).1
  {
    var (r1, failed) := UpdateDevice(r, ip, d);
    if failed then (r, db, true)
    else
      var (stored, db') := SaveTo(db, d);
      (r1.(devices := r1.devices[ip := stored]), db', false)
  }

  /** The registry-and-store part of `Sniffer::processArp` for a reply that
      passed its checks, as the source writes it: an unregistered sender is
      added from a local default device, and that local copy, which never
      receives the id the add assigned, is what the update then stores. */
  function ArpUpsertAsWritten(r: Registry, db: Store, spa: string, sha: string): (Registry, Store)
  {
    var blank := Set(NewDevice(""), Ip, StrValue(spa));
    var added := AddSaved(r, db, blank);
    var dev := if CheckDevice(r, spa) then r.devices[spa] else blank;
    var r1 := if CheckDevice(r, spa) then r else added.0;
    var db1 := if CheckDevice(r, spa) then db else added.1;
    var (r2, db2, _) := UpdateSaved(r1, db1, spa, Set(dev, Mac, StrValue(sha)));
    (r2, db2)
  }

  /** The same step reading the registered device back before setting its
      MAC, so the update carries the id its insert was given. */
  function ArpUpsert(r: Registry, db: Store, spa: string, sha: string): (Registry, Store)
  {
    var added := AddSaved(r, db, Set(NewDevice(""), Ip, StrValue(spa)));
    var r1 := if CheckDevice(r, spa) then r else added.0;
    var db1 := if CheckDevice(r, spa) then db else added.1;
    var dev := r1.devices[spa];
    var (r2, db2, _) := UpdateSaved(r1, db1, spa, Set(dev, Mac, StrValue(sha)));
    (r2, db2)
  }

  /** As written, the first reply from an unregistered sender inserts two
      rows for it: the add inserts the bare device, and the update, storing
      the local copy whose id is still 0, inserts it again. The registry ends
      up pointing at the second row; the first is never written again. */
  lemma NewSenderInsertedTwice(r: Registry, db: Store, spa: string, sha: string)
    requires spa !in r.devices
    ensures var (r', db') := ArpUpsertAsWritten(r, db, spa, sha);
      && db'.log == db.log + [Insert(NewDevice(spa)), Insert(NewDevice(spa).(mac := sha))]
      && r'.devices[spa].id == db.lastId + 2
  {
  }

  /** Corrected, the first reply from an unregistered sender inserts one row
      and updates that same row with the MAC; the registry keeps its id. */
  lemma NewSenderInsertedOnce(r: Registry, db: Store, spa: string, sha: string)
    requires spa !in r.devices
    ensures var (r', db') := ArpUpsert(r, db, spa, sha);
      var saved := NewDevice(spa).(id := db.lastId + 1, mac := sha);
      && db'.log == db.log + [Insert(NewDevice(spa)), Update(db.lastId + 1, saved)]
      && r'.devices == r.devices[spa := saved]
  {
    var blank := NewDevice(spa);
    BareIsNew(Set(NewDevice(""), Ip, StrValue(spa)));
    var added := AddSaved(r, db, blank);
    assert added.0.devices == r.devices[spa := blank.(id := db.lastId + 1)];
    assert added.1 == Store(db.log + [Insert(blank)], db.lastId + 1);
    assert Set(blank.(id := db.lastId + 1), Mac, StrValue(sha)) == blank.(id := db.lastId + 1, mac := sha);
  }

  /** For a sender already registered and saved, both versions issue the
      same single update of its row. */
  lemma KnownSenderUpdated(r: Registry, db: Store, spa: string, sha: string)
    requires spa in r.devices && r.devices[spa].id != 0
    ensures ArpUpsertAsWritten(r, db, spa, sha) == ArpUpsert(r, db, spa, sha)
    ensures var (r', db') := ArpUpsert(r, db, spa, sha);
      db'.log == db.log + [Update(r.devices[spa].id, r.devices[spa].(mac := sha))]
  {
  }

  /** With ids set aside, the corrected step writes the registry exactly as
      the capture model's ARP handler does. */
  lemma ArpUpsertRefinesCapture(r: Registry, db: Store, spa: string, sha: string)
    ensures var r' := ArpUpsert(r, db, spa, sha).0;
      && r'.devices.Keys == r.devices.Keys + {spa}
      && (forall k :: k in r.devices && k != spa ==> r'.devices[k] == r.devices[k])
      && r'.devices[spa] == Sniffer.WithMac(r, spa, sha).(id := r'.devices[spa].id)
  {
    if spa !in r.devices {
      NewSenderInsertedOnce(r, db, spa, sha);
    }
  }

  /** The step as written also agrees with the capture model's ARP handler
      once ids are set aside: the double insert shows only in the store and
      in the id the registry keeps. */
  lemma ArpUpsertAsWrittenRefinesCapture(r: Registry, db: Store, spa: string, sha: string)
    ensures var r' := ArpUpsertAsWritten(r, db, spa, sha).0;
      && r'.devices.Keys == r.devices.Keys + {spa}
      && (forall k :: k in r.devices && k != spa ==> r'.devices[k] == r.devices[k])
      && r'.devices[spa] == Sniffer.WithMac(r, spa, sha).(id := r'.devices[spa].id)
  {
    BareIsNew(Set(NewDevice(""), Ip, StrValue(spa)));
  }

}
