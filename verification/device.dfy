/** A discovered network device (class `Device`): an immutable record whose
    setters return an updated copy. Integers use -1 for "unknown". */
module Devices {

  /** The "not yet learned" value of hops, vlan and reachable. */
  const Unknown: int := -1

  datatype Device = Device(
    id: int,          // surrogate key in the device store; 0 = never stored
    hostname: string,
    mac: string,      // "" = unknown
    ip: string,       // the registry key
    subnet: string,
    hops: int,
    vlan: int,
    reachable: int    // -1 unknown, 0 unreachable, 1 reachable
  )

  /** Nothing has been learned about the device beyond its address. */
  predicate IsBare(d: Device) {
    d.id == 0 && d.hostname == "" && d.mac == "" && d.subnet == ""
    && d.hops == Unknown && d.vlan == Unknown && d.reachable == Unknown
  }

  /** `Device(ip)`; the default constructor is `NewDevice("")`. */
  function NewDevice(ip: string): (d: Device)
    ensures IsBare(d) && d.ip == ip
  {
    Device(0, "", "", ip, "", Unknown, Unknown, Unknown)
  }

  /** A bare device is determined by its address. */
  lemma BareIsNew(d: Device)
    requires IsBare(d)
    ensures d == NewDevice(d.ip)
  {
  }

  // ---------------------------------------------------------------------------
  // Accessors, uniformly: one field name, one getter, one setter.

  datatype Field = Id | Hostname | Mac | Ip | Subnet | Hops | Vlan | Reachable

  datatype Value = IntValue(i: int) | StrValue(s: string)

  predicate IsIntField(f: Field) {
    f == Id || f == Hops || f == Vlan || f == Reachable
  }

  /** The value kind a field holds. */
  predicate Fits(f: Field, v: Value) {
    if IsIntField(f) then v.IntValue? else v.StrValue?
  }

  /** The getters `getId` ... `getReachable`. */
  function Get(d: Device, f: Field): (v: Value)
    ensures Fits(f, v)
  {
    match f
    case Id => IntValue(d.id)
    case Hostname => StrValue(d.hostname)
    case Mac => StrValue(d.mac)
    case Ip => StrValue(d.ip)
    case Subnet => StrValue(d.subnet)
    case Hops => IntValue(d.hops)
    case Vlan => IntValue(d.vlan)
    case Reachable => IntValue(d.reachable)
  }

  /** The setters `setId` ... `setReachable`: the matching getter returns the
      value set, and every other getter is unaffected. */
  function Set(d: Device, f: Field, v: Value): (r: Device)
    requires Fits(f, v)
    ensures Get(r, f) == v
    ensures forall g :: g != f ==> Get(r, g) == Get(d, g)
  {
    match f
    case Id => d.(id := v.i)
    case Hostname => d.(hostname := v.s)
    case Mac => d.(mac := v.s)
    case Ip => d.(ip := v.s)
    case Subnet => d.(subnet := v.s)
    case Hops => d.(hops := v.i)
    case Vlan => d.(vlan := v.i)
    case Reachable => d.(reachable := v.i)
  }

  /** Devices agreeing on every getter are the same device. */
  lemma {:induction false} GettersDetermineDevice(d: Device, e: Device)
    requires forall f :: Get(d, f) == Get(e, f)
    ensures d == e
  {
    assert Get(d, Id) == Get(e, Id);
    assert Get(d, Hostname) == Get(e, Hostname);
    assert Get(d, Mac) == Get(e, Mac);
    assert Get(d, Ip) == Get(e, Ip);
    assert Get(d, Subnet) == Get(e, Subnet);
    assert Get(d, Hops) == Get(e, Hops);
    assert Get(d, Vlan) == Get(e, Vlan);
    assert Get(d, Reachable) == Get(e, Reachable);
  }

  /** Setting a field to the value it already has changes nothing. */
  lemma SetCurrentValue(d: Device, f: Field)
    ensures Set(d, f, Get(d, f)) == d
  {
    GettersDetermineDevice(Set(d, f, Get(d, f)), d);
  }

  /** A second set of the same field overrides the first. */
  lemma SetTwice(d: Device, f: Field, v: Value, w: Value)
    requires Fits(f, v) && Fits(f, w)
    ensures Set(Set(d, f, v), f, w) == Set(d, f, w)
  {
    GettersDetermineDevice(Set(Set(d, f, v), f, w), Set(d, f, w));
  }

  /** The "Reachable:" line of `operator<<`. */
  function ReachableText(d: Device): (t: string)
    ensures t == "Yes" || t == "No"
    ensures t == "Yes" <==> d.reachable == 1
  {
    if d.reachable == 1 then "Yes" else "No"
  }

  // ---------------------------------------------------------------------------
  // Persistence: `save` chooses between an insert and an update by `id`.

  /** What the store answers: the auto-increment id of a successful insert
      (or success of an update), or a failed statement. */
  datatype StoreReply = Stored(lastId: int) | StoreFailed

  datatype Statement = Insert(row: Device) | Update(key: int, row: Device)

  datatype Saved = Saved(device: Device, statement: Statement, failed: bool)

  /** `Device::save`: returns the device afterwards, the statement issued and
      whether the store reported an error. */
  function Save(d: Device, reply: StoreReply): (s: Saved)
    ensures s.statement.Insert? <==> d.id == 0
    ensures s.statement.row == d
    ensures s.statement.Update? ==> s.statement.key == d.id && s.device == d
    ensures s.failed <==> reply.StoreFailed?
    ensures s.statement.Insert? && !s.failed ==> s.device.id == reply.lastId
    ensures s.statement.Insert? && s.failed ==> s.device.id == 0
    ensures forall f :: f != Id ==> Get(s.device, f) == Get(d, f)
  {
    if d.id == 0 then
      match reply
      case StoreFailed => Saved(d, Insert(d), true)
      case Stored(lastId) => Saved(d.(id := lastId), Insert(d), false)
    else
      Saved(d, Update(d.id, d), reply.StoreFailed?)
  }

  /** Once an insert has succeeded with a non-zero id, saving again updates
      that row and leaves the device as it is. */
  lemma SaveAfterInsertUpdates(d: Device, first: StoreReply, second: StoreReply)
    requires d.id == 0 && first.Stored? && first.lastId != 0
    ensures var s := Save(Save(d, first).device, second);
      s.statement == Update(first.lastId, d.(id := first.lastId)) && s.device == d.(id := first.lastId)
  {
  }

}
