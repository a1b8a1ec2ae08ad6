/**
 * `FioTBluetoothCharacteristic` and the working set of services a session is
 * configured with. Each characteristic owns the queue of chunks waiting to be
 * written to it.
 */
module Characteristic {
  import opened Wrappers
  import opened Gatt
  import Text
  import ByteUtils

  datatype Characteristic = Characteristic(
    uuid: string,
    notify: bool,
    handle: Option<GattChar>,
    writeQueue: seq<ByteUtils.Bytes>)

  /** A working service (`FioTBluetoothService`): a UUID and its characteristics, in order. */
  datatype Service = Service(uuid: string, chars: seq<Characteristic>)

  /** The constructor: the transport handle is absent until service discovery sets it. */
  function New(uuid: string, notify: bool): (c: Characteristic)
    ensures c.uuid == uuid && c.notify == notify
    ensures c.handle.None? && c.writeQueue == []
  {
    Characteristic(uuid, notify, None, [])
  }

  function SetUuid(c: Characteristic, uuid: string): (r: Characteristic)
    ensures r.uuid == uuid
    ensures r.notify == c.notify && r.handle == c.handle && r.writeQueue == c.writeQueue
  {
    c.(uuid := uuid)
  }

  function SetHandle(c: Characteristic, handle: Option<GattChar>): (r: Characteristic)
    ensures r.handle == handle
    ensures r.uuid == c.uuid && r.notify == c.notify && r.writeQueue == c.writeQueue
  {
    c.(handle := handle)
  }

  function SetNotify(c: Characteristic, notify: bool): (r: Characteristic)
    ensures r.notify == notify
    ensures r.uuid == c.uuid && r.handle == c.handle && r.writeQueue == c.writeQueue
  {
    c.(notify := notify)
  }

  /** Each setter is read back by its getter and leaves the other fields alone. */
  lemma SettersRoundTrip(c: Characteristic, uuid: string, handle: Option<GattChar>, notify: bool)
    ensures SetUuid(c, uuid).uuid == uuid
    ensures SetHandle(c, handle).handle == handle
    ensures SetNotify(c, notify).notify == notify
    ensures SetNotify(SetNotify(c, !notify), notify) == SetNotify(c, notify)
  {
  }

  /**
   * `setWriteType(type)`: refused (`false`, nothing changes) while there is no
   * transport handle; otherwise the handle's write type is set.
   */
  function SetWriteType(c: Characteristic, writeType: int): (r: (Characteristic, bool))
    ensures r.1 <==> c.handle.Some?
    ensures !r.1 ==> r.0 == c
    ensures r.1 ==> r.0.handle.Some? && r.0.handle.value.writeType == writeType
    ensures r.1 ==> r.0.handle.value.id == c.handle.value.id
    ensures r.0.uuid == c.uuid && r.0.notify == c.notify && r.0.writeQueue == c.writeQueue
  {
    match c.handle
    case None => (c, false)
    case Some(h) => (c.(handle := Some(h.(writeType := writeType))), true)
  }

  /** The characteristic at position `(i, j)` of the working set has a UUID equal to `uuid` up to case. */
  predicate UuidAt(services: seq<Service>, uuid: string, i: int, j: int)
  {
    0 <= i < |services| && 0 <= j < |services[i].chars| &&
    Text.EqualsIgnoreCase(services[i].chars[j].uuid, uuid)
  }

  /** Position `(i, j)` comes before `(k, l)` in the enumeration order of the working set. */
  predicate Before(i: int, j: int, k: int, l: int)
  {
    i < k || (i == k && j < l)
  }

  function FindInService(chars: seq<Characteristic>, uuid: string, j: nat): (r: Option<nat>)
    decreases |chars| - j
    ensures r.Some? ==> j <= r.value < |chars| && Text.EqualsIgnoreCase(chars[r.value].uuid, uuid)
    ensures r.Some? ==> forall l :: j <= l < r.value ==> !Text.EqualsIgnoreCase(chars[l].uuid, uuid)
    ensures r.None? ==> forall l :: j <= l < |chars| ==> !Text.EqualsIgnoreCase(chars[l].uuid, uuid)
  {
    if j >= |chars| then None
    else if Text.EqualsIgnoreCase(chars[j].uuid, uuid) then Some(j)
    else FindInService(chars, uuid, j + 1)
  }

  function FindFrom(services: seq<Service>, uuid: string, i: nat): (r: Option<(nat, nat)>)
    decreases |services| - i
    ensures r.Some? ==> i <= r.value.0 && UuidAt(services, uuid, r.value.0, r.value.1)
    ensures r.Some? ==> forall k, l :: i <= k && Before(k, l, r.value.0, r.value.1) ==> !UuidAt(services, uuid, k, l)
    ensures r.None? ==> forall k, l :: i <= k ==> !UuidAt(services, uuid, k, l)
  {
    if i >= |services| then None
    else match FindInService(services[i].chars, uuid, 0)
      case Some(j) => Some((i, j))
      case None => FindFrom(services, uuid, i + 1)
  }

  /**
   * `getCharacteristic(String)` of the session manager: the position of the
   * first characteristic, in enumeration order, whose UUID matches up to case.
   */
  function FindByUuid(services: seq<Service>, uuid: string): (r: Option<(nat, nat)>)
    ensures r.Some? ==> UuidAt(services, uuid, r.value.0, r.value.1)
    ensures r.Some? ==> forall k, l :: Before(k, l, r.value.0, r.value.1) ==> !UuidAt(services, uuid, k, l)
    ensures r.None? <==> forall k, l :: !UuidAt(services, uuid, k, l)
  {
    FindFrom(services, uuid, 0)
  }

  /** The characteristic at position `(i, j)` holds the transport handle `h`. */
  predicate HandleAt(services: seq<Service>, h: GattChar, i: int, j: int)
  {
    0 <= i < |services| && 0 <= j < |services[i].chars| && SameHandle(services[i].chars[j].handle, h)
  }

  function FindHandleInService(chars: seq<Characteristic>, h: GattChar, j: nat): (r: Option<nat>)
    decreases |chars| - j
    ensures r.Some? ==> j <= r.value < |chars| && SameHandle(chars[r.value].handle, h)
    ensures r.Some? ==> forall l :: j <= l < r.value ==> !SameHandle(chars[l].handle, h)
    ensures r.None? ==> forall l :: j <= l < |chars| ==> !SameHandle(chars[l].handle, h)
  {
    if j >= |chars| then None
    else if SameHandle(chars[j].handle, h) then Some(j)
    else FindHandleInService(chars, h, j + 1)
  }

  /** The search of `FindByHandle` restricted to the first `n` services, last service first. */
  function FindHandleBelow(services: seq<Service>, h: GattChar, n: nat): (r: Option<(nat, nat)>)
    requires n <= |services|
    ensures r.Some? ==> r.value.0 < n && HandleAt(services, h, r.value.0, r.value.1)
    ensures r.Some? ==> forall l :: 0 <= l < r.value.1 ==> !HandleAt(services, h, r.value.0, l)
    ensures r.Some? ==> forall k, l :: r.value.0 < k < n ==> !HandleAt(services, h, k, l)
    ensures r.None? ==> forall k, l :: k < n ==> !HandleAt(services, h, k, l)
  {
    if n == 0 then None
    else match FindHandleInService(services[n - 1].chars, h, 0)
      case Some(j) => Some((n - 1, j))
      case None => FindHandleBelow(services, h, n - 1)
  }

  /**
   * `getCharacteristic(BluetoothGattCharacteristic)`: its `break` leaves only
   * the inner loop, so the answer is the first match within the LAST service
   * that holds the handle at all.
   */
  function FindByHandle(services: seq<Service>, h: GattChar): (r: Option<(nat, nat)>)
    ensures r.Some? ==> HandleAt(services, h, r.value.0, r.value.1)
    ensures r.Some? ==> forall l :: 0 <= l < r.value.1 ==> !HandleAt(services, h, r.value.0, l)
    ensures r.Some? ==> forall k, l :: r.value.0 < k ==> !HandleAt(services, h, k, l)
    ensures r.None? <==> forall k, l :: !HandleAt(services, h, k, l)
  {
    FindHandleBelow(services, h, |services|)
  }

  /** The working set with the characteristic at `(i, j)` replaced by `c`. */
  function UpdateAt(services: seq<Service>, i: nat, j: nat, c: Characteristic): (r: seq<Service>)
    requires i < |services| && j < |services[i].chars|
    ensures |r| == |services|
    ensures forall k :: 0 <= k < |r| ==> r[k].uuid == services[k].uuid && |r[k].chars| == |services[k].chars|
    ensures r[i].chars[j] == c
    ensures forall k, l :: 0 <= k < |r| && 0 <= l < |r[k].chars| && (k, l) != (i, j) ==>
              r[k].chars[l] == services[k].chars[l]
  {
    services[i := services[i].(chars := services[i].chars[j := c])]
  }

  /** Replacing a characteristic by one with the same UUID keeps every position's match. */
  lemma UpdateAtKeepsUuids(services: seq<Service>, i: nat, j: nat, c: Characteristic, uuid: string)
    requires i < |services| && j < |services[i].chars| && c.uuid == services[i].chars[j].uuid
    ensures forall k, l :: UuidAt(UpdateAt(services, i, j, c), uuid, k, l) <==> UuidAt(services, uuid, k, l)
  {
    var r := UpdateAt(services, i, j, c);
    forall k, l
      ensures UuidAt(r, uuid, k, l) <==> UuidAt(services, uuid, k, l)
    {
      if 0 <= k < |r| && 0 <= l < |r[k].chars| && (k, l) != (i, j) {
        assert r[k].chars[l] == services[k].chars[l];
      }
    }
  }

  /** The first match stays where it was when a characteristic is replaced by one with the same UUID. */
  lemma FindByUuidAfterUpdate(services: seq<Service>, i: nat, j: nat, c: Characteristic, uuid: string)
    requires FindByUuid(services, uuid) == Some((i, j))
    requires c.uuid == services[i].chars[j].uuid
    ensures FindByUuid(UpdateAt(services, i, j, c), uuid) == Some((i, j))
  {
    var r := UpdateAt(services, i, j, c);
    UpdateAtKeepsUuids(services, i, j, c, uuid);
    assert UuidAt(r, uuid, i, j);
    var q := FindByUuid(r, uuid).value;
    assert UuidAt(services, uuid, q.0, q.1);
    assert Before(q.0, q.1, i, j) ==> !UuidAt(services, uuid, q.0, q.1);
    assert Before(i, j, q.0, q.1) ==> !UuidAt(r, uuid, i, j);
  }

  /** Writing back the characteristic already at `(i, j)` leaves the working set as it was. */
  lemma UpdateAtSame(services: seq<Service>, i: nat, j: nat)
    requires i < |services| && j < |services[i].chars|
    ensures UpdateAt(services, i, j, services[i].chars[j]) == services
  {
    assert services[i].chars[j := services[i].chars[j]] == services[i].chars;
    assert services[i].(chars := services[i].chars) == services[i];
  }
}
