/** The device registry (class `Monitor`): an ordered map from IP text to
    device, plus the iterator the probe loop walks. Every operation is one
    atomic step; the mutex and the persistence calls are not modelled. */
module Monitor {
  import opened Options
  import opened Devices
  import opened StringOrder

  /** `cursor` is the key the iterator points at; None is the end position
      (or the iterator before its first `reset`). */
  datatype Registry = Registry(devices: map<string, Device>, cursor: Option<string>)

  /** The iterator, when placed, points at a stored entry; with no deletions
      this holds for every reachable registry. */
  predicate Valid(r: Registry) {
    r.cursor.Some? ==> r.cursor.value in r.devices
  }

  const Empty: Registry := Registry(map[], None)

  /** `count`: the number of distinct keys. */
  function Count(r: Registry): (n: nat)
    ensures n == |r.devices.Keys|
    ensures n == 0 <==> r.devices == map[]
  {
    |r.devices|
  }

  /** `getDevice`: a copy of the stored device, or None where the source throws. */
  function GetDevice(r: Registry, ip: string): (d: Option<Device>)
    ensures d.Some? <==> ip in r.devices
    ensures d.Some? ==> d.value == r.devices[ip]
  {
    if ip in r.devices then Some(r.devices[ip]) else None
  }

  /** `checkDevice`: whether a lookup would succeed. */
  function CheckDevice(r: Registry, ip: string): (found: bool)
    ensures found <==> GetDevice(r, ip).Some?
  {
    ip in r.devices
  }

  /** `addDevice`: inserts under the device's own IP unless that key exists;
      the result says whether it inserted. */
  function AddDevice(r: Registry, d: Device): (res: (Registry, bool))
    ensures var (r', inserted) := res;
      && (inserted <==> !CheckDevice(r, d.ip))
      && (inserted ==> GetDevice(r', d.ip) == Some(d))
      && (!inserted ==> GetDevice(r', d.ip) == GetDevice(r, d.ip))
      && (forall ip :: ip != d.ip ==> GetDevice(r', ip) == GetDevice(r, ip))
      && Count(r') == Count(r) + (if inserted then 1 else 0)
      && r'.cursor == r.cursor
  {
    if d.ip in r.devices then (r, false)
    else (r.(devices := r.devices[d.ip := d]), true)
  }

  /** `updateDevice`: replaces the entry under `ip`; the result is true (the
      source's error flag) when `ip` is not registered. */
  function UpdateDevice(r: Registry, ip: string, d: Device): (res: (Registry, bool))
    ensures var (r', failed) := res;
      && (failed <==> !CheckDevice(r, ip))
      && (failed ==> r' == r)
      && (!failed ==> GetDevice(r', ip) == Some(d))
      && (forall other :: other != ip ==> GetDevice(r', other) == GetDevice(r, other))
      && Count(r') == Count(r)
      && r'.cursor == r.cursor
  {
    if ip !in r.devices then (r, true)
    else (r.(devices := r.devices[ip := d]), false)
  }

  /** `reset`: the iterator goes to the first key in map order (the end
      position when the map is empty). */
  function Reset(r: Registry): (r': Registry)
    ensures r'.devices == r.devices && Valid(r')
    ensures r'.cursor.None? <==> r.devices == map[]
    ensures r'.cursor.Some? ==> IsLeast(r'.cursor.value, r.devices.Keys)
  {
    if r.devices == map[] then r.(cursor := None)
    else r.(cursor := Some(Least(r.devices.Keys)))
  }

  /** The keys after `k` in map order. */
  function Above(keys: set<string>, k: string): set<string>
  {
    set j | j in keys && Below(k, j)
  }

  /** `next`: the iterator moves to the next greater key; past the greatest
      key it is reset to the first. Advancing the end position is undefined
      in the source, hence the requirement that the iterator be placed. */
  function Next(r: Registry): (r': Registry)
    requires Valid(r) && r.cursor.Some?
    ensures r'.devices == r.devices && Valid(r') && r'.cursor.Some?
    ensures var k, k' := r.cursor.value, r'.cursor.value;
      && (Above(r.devices.Keys, k) != {} ==>
            Below(k, k') && forall j :: j in r.devices && Below(k, j) && j != k' ==> Below(k', j))
      && (Above(r.devices.Keys, k) == {} ==> IsLeast(k', r.devices.Keys))
  {
    var above := Above(r.devices.Keys, r.cursor.value);
    if above != {} then r.(cursor := Some(Least(above))) else Reset(r)
  }

  /** `getCurrent`: the device the iterator points at. */
  function Current(r: Registry): (d: Device)
    requires Valid(r) && r.cursor.Some?
    ensures GetDevice(r, r.cursor.value) == Some(d)
  {
    r.devices[r.cursor.value]
  }

  /** The registry after `n` calls of `next`. */
  function Advance(r: Registry, n: nat): (r': Registry)
    requires Valid(r) && r.cursor.Some?
    ensures Valid(r') && r'.cursor.Some? && r'.devices == r.devices
    decreases n
  {
    if n == 0 then r else Next(Advance(r, n - 1))
  }

  // ---------------------------------------------------------------------------
  // Cyclic traversal. The position of a key is the number of keys before it.

  function Rank(keys: set<string>, k: string): nat
  {
    |set j | j in keys && Below(j, k)|
  }

  lemma {:induction false} SubsetSize<T>(a: set<T>, b: set<T>)
    requires a <= b
    ensures |a| <= |b|
    ensures a != b ==> |a| < |b|
    decreases |a|
  {
    if a != {} {
      var x :| x in a;
      if a != b {
        var y :| y in b && y !in a;
        assert y in (b - {x}) - (a - {x});
      }
      SubsetSize(a - {x}, b - {x});
    } else if b != {} {
      var y :| y in b;
      assert |b| > 0;
    }
  }

  lemma RankOfLeast(keys: set<string>, k: string)
    requires IsLeast(k, keys)
    ensures Rank(keys, k) == 0
  {
    var before := set j | j in keys && Below(j, k);
    forall j | j in before
      ensures false
    {
      Asymmetric(j, k);
    }
    assert before == {};
  }

  lemma RankBound(keys: set<string>, k: string)
    requires k in keys
    ensures Rank(keys, k) < |keys|
  {
    var before := set j | j in keys && Below(j, k);
    Irreflexive(k);
    SubsetSize(before, keys - {k});
  }

  /** The next key in map order is one position further. */
  lemma RankOfSuccessor(keys: set<string>, k: string)
    requires k in keys && Above(keys, k) != {}
    ensures Rank(keys, Least(Above(keys, k))) == Rank(keys, k) + 1
  {
    var s := Least(Above(keys, k));
    var beforeK := set j | j in keys && Below(j, k);
    var beforeS := set j | j in keys && Below(j, s);
    forall j | j in beforeS
      ensures j in beforeK + {k}
    {
      if j != k {
        Total(j, k);
        if Below(k, j) {
          assert j in Above(keys, k);
          Asymmetric(j, s);
        }
      }
    }
    forall j | j in beforeK + {k}
      ensures j in beforeS
    {
      if j != k {
        Transitive(j, k, s);
      }
    }
    Irreflexive(k);
    assert beforeS == beforeK + {k};
  }

  /** The key with nothing after it is the last position. */
  lemma RankOfGreatest(keys: set<string>, k: string)
    requires k in keys && Above(keys, k) == {}
    ensures Rank(keys, k) == |keys| - 1
  {
    var before := set j | j in keys && Below(j, k);
    forall j | j in keys - {k}
      ensures j in before
    {
      assert j !in Above(keys, k);
      Total(j, k);
    }
    Irreflexive(k);
    assert before == keys - {k};
  }

  lemma RankInjective(keys: set<string>, k: string, k': string)
    requires k in keys && k' in keys && Rank(keys, k) == Rank(keys, k')
    ensures k == k'
  {
    if k != k' {
      Total(k, k');
      if Below(k, k') {
        RankStrict(keys, k, k');
      } else {
        RankStrict(keys, k', k);
      }
    }
  }

  lemma RankStrict(keys: set<string>, k: string, k': string)
    requires k in keys && Below(k, k')
    ensures Rank(keys, k) < Rank(keys, k')
  {
    var a := set j | j in keys && Below(j, k);
    var b := set j | j in keys && Below(j, k');
    forall j | j in a
      ensures j in b
    {
      Transitive(j, k, k');
    }
    Irreflexive(k);
    assert k in b - a;
    SubsetSize(a, b);
  }

  /** After `reset`, `i` calls of `next` (for i below the count) reach the
      key at position i. */
  lemma {:induction false} WalkPositions(r: Registry, i: nat)
    requires Valid(r) && r.devices != map[] && i < Count(r)
    ensures Rank(r.devices.Keys, Advance(Reset(r), i).cursor.value) == i
  {
    var keys := r.devices.Keys;
    if i == 0 {
      RankOfLeast(keys, Reset(r).cursor.value);
    } else {
      WalkPositions(r, i - 1);
      var k := Advance(Reset(r), i - 1).cursor.value;
      if Above(keys, k) == {} {
        RankOfGreatest(keys, k);
        assert false;
      }
      RankOfSuccessor(keys, k);
    }
  }

  /** The N-th call of `next` after `reset`, with N entries, brings the
      iterator back to the first entry. */
  lemma CycleCloses(r: Registry)
    requires Valid(r) && r.devices != map[]
    ensures Advance(Reset(r), Count(r)) == Reset(r)
  {
    var keys := r.devices.Keys;
    var last := Advance(Reset(r), Count(r) - 1).cursor.value;
    WalkPositions(r, Count(r) - 1);
    if Above(keys, last) != {} {
      RankOfSuccessor(keys, last);
      RankBound(keys, Least(Above(keys, last)));
      assert false;
    }
  }

  /** No entry is visited twice within N steps after `reset`. */
  lemma CycleDistinct(r: Registry, i: nat, j: nat)
    requires Valid(r) && r.devices != map[] && i < j < Count(r)
    ensures Advance(Reset(r), i).cursor != Advance(Reset(r), j).cursor
  {
    WalkPositions(r, i);
    WalkPositions(r, j);
  }

  /** Every entry is visited within N steps after `reset`, at its position. */
  lemma CycleCovers(r: Registry, k: string)
    requires Valid(r) && k in r.devices
    ensures Rank(r.devices.Keys, k) < Count(r)
    ensures Advance(Reset(r), Rank(r.devices.Keys, k)).cursor == Some(k)
  {
    var i := Rank(r.devices.Keys, k);
    RankBound(r.devices.Keys, k);
    WalkPositions(r, i);
    RankInjective(r.devices.Keys, Advance(Reset(r), i).cursor.value, k);
  }

  /** The round-robin promise of the probe loop: with N entries, the first N
      positions after `reset` are N distinct keys covering the map (each key
      is reached after as many steps as there are keys before it), and the
      N-th call of `next` brings the iterator back to the first entry. */
  lemma CyclicTraversal(r: Registry)
    requires Valid(r) && r.devices != map[]
    ensures Advance(Reset(r), Count(r)) == Reset(r)
    ensures forall i, j :: 0 <= i < j < Count(r) ==>
      Advance(Reset(r), i).cursor != Advance(Reset(r), j).cursor
    ensures forall k :: k in r.devices ==>
      Rank(r.devices.Keys, k) < Count(r) && Advance(Reset(r), Rank(r.devices.Keys, k)).cursor == Some(k)
  {
    CycleCloses(r);
    forall i, j | 0 <= i < j < Count(r)
      ensures Advance(Reset(r), i).cursor != Advance(Reset(r), j).cursor
    {
      CycleDistinct(r, i, j);
    }
    forall k | k in r.devices
      ensures Rank(r.devices.Keys, k) < Count(r) && Advance(Reset(r), Rank(r.devices.Keys, k)).cursor == Some(k)
    {
      CycleCovers(r, k);
    }
  }

}
