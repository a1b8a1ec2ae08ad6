/**
 * `FioTManager`, the per-device session: the `Status` machine driven by
 * `connect`, `end`, the 30 s connect timeout and the callbacks of
 * `FioTBluetoothLE`; the working set of services and characteristics; and the
 * per-characteristic queue that splits `write(uuid, data)` into 20-byte chunks
 * and issues the next chunk from `onDidWrite`.
 */
module Manager {
  import opened Wrappers
  import opened JavaTypes
  import opened Gatt
  import opened ByteUtils
  import opened Seqs
  import opened Characteristic
  import LE = BluetoothLE
  import Text

  /** Bytes per queued chunk (the 20-byte payload of a default ATT MTU). */
  const DATA_CHUNK: nat := 20

  /** The connect timeout, in milliseconds; its expiry is the `ConnectTimeoutFired` event. */
  const CONNECT_TIMEOUT_MILLISECOND: nat := 30000

  datatype Status = Disconnected | Connecting | Connected

  datatype Manager = Manager(
    status: Status,
    address: string,             // device.getAddress()
    services: seq<Service>,      // the working set
    ble: Option<LE.LeState>,     // null after end()
    timeoutArmed: bool,          // the connect timeout is scheduled and not cancelled
    hasListener: bool)           // a FioTConnectManagerListener is set

  datatype MStep = MStep(m: Manager, acts: seq<Action>)

  /** The constructor: disconnected, with a fresh transport that knows the working services. */
  function New(address: string, services: seq<Service>): (m: Manager)
    ensures m.status == Disconnected && !m.timeoutArmed && !m.hasListener
    ensures m.services == services && m.address == address
    ensures m.ble.Some? && m.ble.value.hasAdapter && !m.ble.value.hasGatt && !m.ble.value.disableWrite
    ensures |m.ble.value.workingServices| == |services|
    ensures forall k :: 0 <= k < |services| ==> m.ble.value.workingServices[k] == services[k].uuid
  {
    Manager(Disconnected, address, services, Some(LE.AddWorkingService(LE.Init(), Some(services))), false, false)
  }

  function SetListener(m: Manager, present: bool): (r: Manager)
    ensures r.hasListener == present && r == m.(hasListener := present)
  {
    m.(hasListener := present)
  }

  /** The status machine's safety invariant: a connected session has a transport and no pending timeout. */
  predicate Inv(m: Manager)
  {
    m.status.Connected? ==> m.ble.Some? && !m.timeoutArmed
  }

  /**
   * `end`: disconnected; the transport, if any, has writes disabled, scanning
   * stopped, the connection closed, is ended and dropped. The connect timeout
   * is left as it was.
   */
  function End(m: Manager): (r: MStep)
    ensures r.m == m.(status := Disconnected, ble := None)
    ensures Inv(r.m)
    ensures m.ble.None? ==> r.acts == []
    ensures m.ble.Some? ==>
              (StopLeScan in r.acts <==> m.ble.value.scanning && m.ble.value.hasAdapter) &&
              (CloseGatt in r.acts <==> m.ble.value.hasGatt) &&
              !(ConnectGatt(m.address) in r.acts)
  {
    match m.ble
    case None => MStep(m.(status := Disconnected), [])
    case Some(le) =>
      var le1 := LE.DisableWrite(le);
      var s := LE.StopScanning(le1);
      var c := LE.CloseConnection(s.le);
      MStep(m.(status := Disconnected, ble := None), s.acts + c.acts)
  }

  /**
   * `connect`: only from `Disconnected`. The status becomes `Connecting` first;
   * without a transport the call then throws before the timeout is armed.
   * `linkUp` is the platform's report that the device is already connected.
   */
  function Connect(m: Manager, linkUp: bool): (r: MStep)
    ensures !m.status.Disconnected? ==> r == MStep(m, [])
    ensures m.status.Disconnected? ==> r.m.status.Connecting?
    ensures m.status.Disconnected? && m.ble.None? ==> r == MStep(m.(status := Connecting), [Threw(NullPointer)])
    ensures m.status.Disconnected? && m.ble.Some? ==>
              r.m.timeoutArmed && r.m.ble.Some? && r.m.services == m.services &&
              (ConnectGatt(m.address) in r.acts <==> m.ble.value.hasAdapter && !(m.ble.value.hasGatt && linkUp))
    ensures Inv(m) ==> Inv(r.m)
  {
    if !m.status.Disconnected? then MStep(m, [])
    else match m.ble
      case None => MStep(m.(status := Connecting), [Threw(NullPointer)])
      case Some(le) =>
        var s := LE.Connect(le, m.address, linkUp);
        MStep(m.(status := Connecting, ble := Some(s.le), timeoutArmed := true), s.acts)
  }

  /**
   * The connect timeout's task: if the session is not connected it reports
   * `onConnectFail(-1)` (throwing when no listener is set, which also skips
   * the `end`); then it ends the session.
   */
  function ConnectTimeoutFired(m: Manager): (r: MStep)
    ensures !m.timeoutArmed ==> r == MStep(m, [])
    ensures m.timeoutArmed && !m.status.Connected? && m.hasListener ==>
              |r.acts| > 0 && r.acts[0] == OnConnectFail(-1) && r.m.status.Disconnected? && r.m.ble.None?
    ensures m.timeoutArmed && !m.status.Connected? && !m.hasListener ==>
              r == MStep(m.(timeoutArmed := false), [Threw(NullPointer)])
    ensures m.timeoutArmed && m.status.Connected? ==> !(OnConnectFail(-1) in r.acts) && r.m.status.Disconnected?
    ensures !r.m.timeoutArmed && (Inv(m) ==> Inv(r.m))
  {
    if !m.timeoutArmed then MStep(m, [])
    else
      var m1 := m.(timeoutArmed := false);
      if !m.status.Connected? && !m.hasListener then MStep(m1, [Threw(NullPointer)])
      else
        var report := if !m.status.Connected? then [OnConnectFail(-1)] else [];
        var e := End(m1);
        MStep(e.m, report + e.acts)
  }

  /** `onConnectResult`: success waits for discovery; failure is reported, the timeout cancelled and the session ended. */
  function OnConnectResult(m: Manager, result: int, code: int): (r: MStep)
    ensures result != CONNECT_FAIL ==> r == MStep(m, [])
    ensures result == CONNECT_FAIL ==>
              r.m.status.Disconnected? && r.m.ble.None? && !r.m.timeoutArmed &&
              (OnConnectFail(code) in r.acts <==> m.hasListener)
    ensures Inv(m) ==> Inv(r.m)
  {
    if result == CONNECT_FAIL then
      var report := if m.hasListener then [OnConnectFail(code)] else [];
      var e := End(m.(timeoutArmed := false));
      assert OnConnectFail(code) !in e.acts;
      MStep(e.m, report + e.acts)
    else MStep(m, [])
  }

  /** `getCharacteristic(String)`: the first characteristic of the working set whose UUID matches up to case. */
  function GetCharacteristic(m: Manager, uuid: string): (r: Option<Characteristic>)
    ensures r.Some? ==> exists i, j :: UuidAt(m.services, uuid, i, j) && m.services[i].chars[j] == r.value &&
                          forall k, l :: Before(k, l, i, j) ==> !UuidAt(m.services, uuid, k, l)
    ensures r.None? <==> forall k, l :: !UuidAt(m.services, uuid, k, l)
  {
    match FindByUuid(m.services, uuid)
    case None => None
    case Some(p) => Some(m.services[p.0].chars[p.1])
  }

  /**
   * `enableNotification` (`notify` true) and `disableNotification` (false):
   * `IncorrectState` without a transport, `CharacteristicNotFound` for an
   * unknown UUID; otherwise the first matching characteristic gets the flag
   * and is queued for the transport's descriptor writes. The transport's
   * possible `CONNECT_SUCCESS` report is dropped: `onConnectResult` ignores it.
   */
  function ChangeNotification(m: Manager, uuid: string, notify: bool): (r: MStep)
    ensures m.ble.None? ==> r == MStep(m, [Threw(IncorrectState)])
    ensures m.ble.Some? && GetCharacteristic(m, uuid).None? ==> r == MStep(m, [Threw(CharacteristicNotFound)])
    ensures m.ble.Some? && GetCharacteristic(m, uuid).Some? ==>
              var p := FindByUuid(m.services, uuid).value;
              var c := m.services[p.0].chars[p.1].(notify := notify);
              r.m == m.(services := UpdateAt(m.services, p.0, p.1, c), ble := r.m.ble) &&
              r.m.ble.Some? && r.m.ble.value.discovered == m.ble.value.discovered &&
              (|m.ble.value.notifyQueue| > 0 ==> r.m.ble.value.notifyQueue == m.ble.value.notifyQueue + [c]) &&
              (|m.ble.value.notifyQueue| == 0 ==> LE.DroppedPrefix([c], r.m.ble.value.notifyQueue)) &&
              LE.CountCccdWrites(r.acts) <= 1
    ensures forall a :: a in r.acts ==> a.SetCharacteristicNotification? || a.WriteCccd? || a.Threw?
  {
    match m.ble
    case None => MStep(m, [Threw(IncorrectState)])
    case Some(le) =>
      match FindByUuid(m.services, uuid)
      case None => MStep(m, [Threw(CharacteristicNotFound)])
      case Some(p) =>
        var c := SetNotify(m.services[p.0].chars[p.1], notify);
        var s := LE.SetNotification(le, c);
        MStep(m.(services := UpdateAt(m.services, p.0, p.1, c), ble := Some(s.le)), s.acts)
  }

  /** The number of characteristics in each service: what `onGetSupportServiceComplete` iterates over. */
  function Shape(services: seq<Service>): (r: seq<nat>)
    ensures |r| == |services|
    ensures forall k :: 0 <= k < |services| ==> r[k] == |services[k].chars|
  {
    seq(|services|, k requires 0 <= k < |services| => |services[k].chars|)
  }

  /** Position `(k, l)` is `(i, j)` or comes after it. */
  predicate AtOrAfter(k: int, l: int, i: int, j: int)
  {
    i < k || (i == k && j <= l)
  }

  /** Some characteristic at or after `(i, j)` is to be notified. */
  predicate NotifyFrom(services: seq<Service>, i: int, j: int)
  {
    exists k, l :: AtOrAfter(k, l, i, j) && 0 <= k < |services| && 0 <= l < |services[k].chars| &&
                   services[k].chars[l].notify
  }

  /** The UUID of every characteristic of the working set, service by service. */
  function UuidGrid(services: seq<Service>): (r: seq<seq<string>>)
    ensures |r| == |services|
    ensures forall k :: 0 <= k < |services| ==> |r[k]| == |services[k].chars|
  {
    seq(|services|, k requires 0 <= k < |services| =>
      seq(|services[k].chars|, l requires 0 <= l < |services[k].chars| => services[k].chars[l].uuid))
  }

  /** The transport handle of every characteristic of the working set, service by service. */
  function HandleGrid(services: seq<Service>): (r: seq<seq<Option<GattChar>>>)
    ensures |r| == |services|
    ensures forall k :: 0 <= k < |services| ==> |r[k]| == |services[k].chars|
  {
    seq(|services|, k requires 0 <= k < |services| =>
      seq(|services[k].chars|, l requires 0 <= l < |services[k].chars| => services[k].chars[l].handle))
  }

  /**
   * The handles the loop of `onGetSupportServiceComplete` leaves when it runs
   * to the end from position `(i, j)`: a characteristic before that position
   * keeps its handle, every other one gets the transport's characteristic for
   * its UUID.
   */
  function Resolved(services: seq<Service>, le: LE.LeState, i: int, j: int): (r: seq<seq<Option<GattChar>>>)
    ensures |r| == |services|
    ensures forall k :: 0 <= k < |services| ==> |r[k]| == |services[k].chars|
  {
    seq(|services|, k requires 0 <= k < |services| =>
      seq(|services[k].chars|, l requires 0 <= l < |services[k].chars| =>
        if AtOrAfter(k, l, i, j) then LE.GetCharacteristic(le, services[k].chars[l].uuid)
        else services[k].chars[l].handle))
  }

  /** Replacing one characteristic changes the two grids at that position only. */
  lemma GridUpdate(services: seq<Service>, i: nat, j: nat, c: Characteristic)
    requires i < |services| && j < |services[i].chars|
    ensures HandleGrid(UpdateAt(services, i, j, c)) ==
              HandleGrid(services)[i := HandleGrid(services)[i][j := c.handle]]
    ensures c.uuid == services[i].chars[j].uuid ==> UuidGrid(UpdateAt(services, i, j, c)) == UuidGrid(services)
    ensures c.handle == services[i].chars[j].handle ==> HandleGrid(UpdateAt(services, i, j, c)) == HandleGrid(services)
  {
    var u := UpdateAt(services, i, j, c);
    var h := HandleGrid(services)[i := HandleGrid(services)[i][j := c.handle]];
    forall k | 0 <= k < |services|
      ensures HandleGrid(u)[k] == h[k]
    {
      assert |HandleGrid(u)[k]| == |h[k]|;
    }
    if c.uuid == services[i].chars[j].uuid {
      forall k | 0 <= k < |services|
        ensures UuidGrid(u)[k] == UuidGrid(services)[k]
      {
        assert |UuidGrid(u)[k]| == |UuidGrid(services)[k]|;
      }
    }
    if c.handle == services[i].chars[j].handle {
      forall k | 0 <= k < |services|
        ensures HandleGrid(u)[k] == HandleGrid(services)[k]
      {
        assert |HandleGrid(u)[k]| == |HandleGrid(services)[k]|;
      }
    }
  }

  /** Past the last service nothing is left to resolve. */
  lemma ResolvedPast(services: seq<Service>, le: LE.LeState, j: int)
    ensures Resolved(services, le, |services|, j) == HandleGrid(services)
  {
    var r := Resolved(services, le, |services|, j);
    forall k | 0 <= k < |services|
      ensures r[k] == HandleGrid(services)[k]
    {
      assert |r[k]| == |HandleGrid(services)[k]|;
    }
  }

  /** The end of one service's characteristics is the start of the next service's. */
  lemma ResolvedRow(services: seq<Service>, le: LE.LeState, i: nat)
    requires i < |services|
    ensures Resolved(services, le, i, |services[i].chars|) == Resolved(services, le, i + 1, 0)
  {
    var a := Resolved(services, le, i, |services[i].chars|);
    var b := Resolved(services, le, i + 1, 0);
    forall k | 0 <= k < |services|
      ensures a[k] == b[k]
    {
      assert |a[k]| == |b[k]|;
    }
  }

  /**
   * One loop step: when `b` is `a` with the handle at `(i, j)` resolved, running
   * the rest of the loop on `b` from the next position resolves the same
   * handles as running it on `a` from `(i, j)`.
   */
  lemma ResolvedStep(a: seq<Service>, b: seq<Service>, le: LE.LeState, le': LE.LeState, i: nat, j: nat)
    requires Shape(a) == Shape(b) && i < |a| && j < |a[i].chars|
    requires UuidGrid(b) == UuidGrid(a)
    requires HandleGrid(b) == HandleGrid(a)[i := HandleGrid(a)[i][j := LE.GetCharacteristic(le, a[i].chars[j].uuid)]]
    requires le'.discovered == le.discovered
    ensures Resolved(b, le', i, j + 1) == Resolved(a, le, i, j)
  {
    var x := Resolved(b, le', i, j + 1);
    var y := Resolved(a, le, i, j);
    forall k | 0 <= k < |a|
      ensures x[k] == y[k]
    {
      assert |b[k].chars| == |a[k].chars|;
      forall l | 0 <= l < |a[k].chars|
        ensures x[k][l] == y[k][l]
      {
        assert UuidGrid(b)[k][l] == UuidGrid(a)[k][l];
        assert HandleGrid(b)[k][l] == HandleGrid(a)[i := HandleGrid(a)[i][j := LE.GetCharacteristic(le, a[i].chars[j].uuid)]][k][l];
        LE.GetCharacteristicReadsDiscovered(le', le, a[k].chars[l].uuid);
      }
      assert |x[k]| == |y[k]|;
    }
  }

  /** At the start of the loop every handle is resolved, and the UUIDs are those of the grid. */
  lemma ResolvedAll(a: seq<Service>, b: seq<Service>, le: LE.LeState, ok: bool)
    requires Shape(a) == Shape(b) && UuidGrid(b) == UuidGrid(a)
    requires ok ==> HandleGrid(b) == Resolved(a, le, 0, 0)
    ensures forall k, l :: 0 <= k < |a| && 0 <= l < |a[k].chars| ==>
              b[k].chars[l].uuid == a[k].chars[l].uuid &&
              (ok ==> b[k].chars[l].handle == LE.GetCharacteristic(le, a[k].chars[l].uuid))
  {
    forall k, l | 0 <= k < |a| && 0 <= l < |a[k].chars|
      ensures b[k].chars[l].uuid == a[k].chars[l].uuid
      ensures ok ==> b[k].chars[l].handle == LE.GetCharacteristic(le, a[k].chars[l].uuid)
    {
      assert |b[k].chars| == |a[k].chars|;
      assert UuidGrid(b)[k][l] == UuidGrid(a)[k][l];
      if ok {
        assert HandleGrid(b)[k][l] == Resolved(a, le, 0, 0)[k][l];
        assert AtOrAfter(k, l, 0, 0);
      }
    }
  }

  /**
   * The loop of `onGetSupportServiceComplete` from position `(i, j)`: each
   * characteristic gets its transport handle, and each one to be notified is
   * enabled. A `NullPointerException` from the transport ends the loop.
   * The second result says whether any characteristic needed notification.
   */
  function ReadyFrom(m: Manager, lens: seq<nat>, i: nat, j: nat, has: bool): (r: (MStep, bool))
    requires m.ble.Some? && Shape(m.services) == lens
    requires i <= |lens| && (i < |lens| ==> j <= lens[i])
    decreases |lens| - i, if i < |lens| then lens[i] - j else 0
    ensures r.0.m.ble.Some? && Shape(r.0.m.services) == lens
    ensures r.0.m == m.(services := r.0.m.services, ble := r.0.m.ble)
    ensures r.0.m.ble.value.discovered == m.ble.value.discovered
    ensures UuidGrid(r.0.m.services) == UuidGrid(m.services)
    ensures Threw(NullPointer) in r.0.acts ==> r.1 && NotifyFrom(m.services, i, j)
    ensures !(Threw(NullPointer) in r.0.acts) ==> (r.1 <==> has || NotifyFrom(m.services, i, j))
    ensures !(Threw(NullPointer) in r.0.acts) ==> HandleGrid(r.0.m.services) == Resolved(m.services, m.ble.value, i, j)
  {
    if i == |lens| then
      ResolvedPast(m.services, m.ble.value, j);
      (MStep(m, []), has)
    else if j == lens[i] then
      var rest := ReadyFrom(m, lens, i + 1, 0, has);
      ResolvedRow(m.services, m.ble.value, i);
      assert NotifyFrom(m.services, i, j) <==> NotifyFrom(m.services, i + 1, 0);
      rest
    else
      var s := VisitAt(m, lens, i, j);
      if Threw(NullPointer) in s.acts then (s, true)
      else
        var rest := ReadyFrom(s.m, lens, i, j + 1, has || m.services[i].chars[j].notify);
        ResolvedStep(m.services, s.m.services, m.ble.value, s.m.ble.value, i, j);
        var acts := s.acts + rest.0.acts;
        assert Threw(NullPointer) in acts <==> Threw(NullPointer) in rest.0.acts;
        (MStep(rest.0.m, acts), rest.1)
  }

  /** The loop of `onGetSupportServiceComplete` only enables notifications, writes descriptors or throws. */
  lemma {:induction false} ReadyFromActions(m: Manager, lens: seq<nat>, i: nat, j: nat, has: bool)
    requires m.ble.Some? && Shape(m.services) == lens
    requires i <= |lens| && (i < |lens| ==> j <= lens[i])
    decreases |lens| - i, if i < |lens| then lens[i] - j else 0
    ensures forall a :: a in ReadyFrom(m, lens, i, j, has).0.acts ==>
              a.SetCharacteristicNotification? || a.WriteCccd? || a.Threw?
  {
    if i == |lens| {
    } else if j == lens[i] {
      ReadyFromActions(m, lens, i + 1, 0, has);
    } else {
      var s := VisitAt(m, lens, i, j);
      if !(Threw(NullPointer) in s.acts) {
        ReadyFromActions(s.m, lens, i, j + 1, has || m.services[i].chars[j].notify);
      }
    }
  }

  /**
   * One iteration of that loop: the characteristic at `(i, j)` gets the
   * transport's handle for its UUID and, when it is to be notified, the
   * notification is enabled through its UUID.
   */
  function VisitAt(m: Manager, lens: seq<nat>, i: nat, j: nat): (s: MStep)
    requires m.ble.Some? && Shape(m.services) == lens && i < |lens| && j < lens[i]
    ensures s.m.ble.Some? && Shape(s.m.services) == lens
    ensures s.m == m.(services := s.m.services, ble := s.m.ble)
    ensures s.m.ble.value.discovered == m.ble.value.discovered
    ensures UuidGrid(s.m.services) == UuidGrid(m.services)
    ensures HandleGrid(s.m.services) ==
              HandleGrid(m.services)[i := HandleGrid(m.services)[i][j := LE.GetCharacteristic(m.ble.value, m.services[i].chars[j].uuid)]]
    ensures NotifyFrom(m.services, i, j) <==> m.services[i].chars[j].notify || NotifyFrom(s.m.services, i, j + 1)
    ensures !m.services[i].chars[j].notify ==> s.acts == []
    ensures forall a :: a in s.acts ==> a.SetCharacteristicNotification? || a.WriteCccd? || a.Threw?
  {
    var c0 := m.services[i].chars[j];
    var c := SetHandle(c0, LE.GetCharacteristic(m.ble.value, c0.uuid));
    var m1 := m.(services := UpdateAt(m.services, i, j, c));
    assert Shape(m1.services) == lens;
    GridUpdate(m.services, i, j, c);
    if c.notify then
      var s := ChangeNotification(m1, c.uuid, true);
      ReadyStep(m1, s, c.uuid, lens, i, j);
      NotifyFromStep(m.services, s.m.services, i, j);
      s
    else
      NotifyFromStep(m.services, m1.services, i, j);
      MStep(m1, [])
  }

  /** Splitting `NotifyFrom` at position `(i, j)`; `a` and `b` agree after it. */
  lemma NotifyFromStep(a: seq<Service>, b: seq<Service>, i: nat, j: nat)
    requires Shape(a) == Shape(b) && i < |a| && j < |a[i].chars|
    requires forall k, l :: Before(i, j, k, l) && 0 <= k < |a| && 0 <= l < |a[k].chars| ==> b[k].chars[l] == a[k].chars[l]
    ensures NotifyFrom(a, i, j) <==> a[i].chars[j].notify || NotifyFrom(b, i, j + 1)
  {
    if NotifyFrom(a, i, j) && !a[i].chars[j].notify {
      var k, l :| AtOrAfter(k, l, i, j) && 0 <= k < |a| && 0 <= l < |a[k].chars| && a[k].chars[l].notify;
      assert |b[k].chars| == |a[k].chars|;
      assert b[k].chars[l].notify;
    }
    if NotifyFrom(b, i, j + 1) {
      var k, l :| AtOrAfter(k, l, i, j + 1) && 0 <= k < |b| && 0 <= l < |b[k].chars| && b[k].chars[l].notify;
      assert |b[k].chars| == |a[k].chars|;
      assert a[k].chars[l].notify;
    }
  }

  /**
   * Enabling notification for the UUID at `(i, j)` changes only the first
   * characteristic with that UUID, which is not after `(i, j)`, and only its
   * notify flag.
   */
  lemma ReadyStep(m1: Manager, s: MStep, uuid: string, lens: seq<nat>, i: nat, j: nat)
    requires m1.ble.Some? && Shape(m1.services) == lens && i < |lens| && j < lens[i]
    requires m1.services[i].chars[j].uuid == uuid
    requires s == ChangeNotification(m1, uuid, true)
    ensures s.m.ble.Some? && Shape(s.m.services) == lens
    ensures s.m == m1.(services := s.m.services, ble := s.m.ble)
    ensures s.m.ble.value.discovered == m1.ble.value.discovered
    ensures UuidGrid(s.m.services) == UuidGrid(m1.services) && HandleGrid(s.m.services) == HandleGrid(m1.services)
    ensures forall k, l :: Before(i, j, k, l) && 0 <= k < |lens| && 0 <= l < lens[k] ==>
              s.m.services[k].chars[l] == m1.services[k].chars[l]
  {
    assert UuidAt(m1.services, uuid, i, j);
    var p := FindByUuid(m1.services, uuid).value;
    assert !Before(i, j, p.0, p.1);
    GridUpdate(m1.services, p.0, p.1, m1.services[p.0].chars[p.1].(notify := true));
    assert Shape(s.m.services) == lens;
  }

  /**
   * `onGetSupportServiceComplete`: every characteristic of the working set
   * gets its handle and every one to be notified is enabled. Only when none is
   * to be notified does the session become connected; otherwise it waits for
   * the transport's `onStartListenNotificationComplete`.
   */
  function OnServicesReady(m: Manager): (r: MStep)
    requires m.ble.Some?
    ensures r.m.ble.Some? && Shape(r.m.services) == Shape(m.services)
    ensures r.m.address == m.address && r.m.hasListener == m.hasListener
    ensures !NotifyFrom(m.services, 0, 0) ==>
              r.m.status.Connected? && !r.m.timeoutArmed && (OnConnected in r.acts <==> m.hasListener)
    ensures NotifyFrom(m.services, 0, 0) ==>
              r.m.status == m.status && r.m.timeoutArmed == m.timeoutArmed && !(OnConnected in r.acts)
    ensures !(Threw(NullPointer) in r.acts) ==>
              forall k, l :: 0 <= k < |m.services| && 0 <= l < |m.services[k].chars| ==>
                r.m.services[k].chars[l].uuid == m.services[k].chars[l].uuid &&
                r.m.services[k].chars[l].handle == LE.GetCharacteristic(m.ble.value, m.services[k].chars[l].uuid)
    ensures Inv(m) ==> Inv(r.m)
  {
    var lens := Shape(m.services);
    var r := ReadyFrom(m, lens, 0, 0, false);
    ResolvedAll(m.services, r.0.m.services, m.ble.value, !(Threw(NullPointer) in r.0.acts));
    ReadyFromActions(m, lens, 0, 0, false);
    if r.1 then r.0
    else
      var report := if m.hasListener then [OnConnected] else [];
      MStep(r.0.m.(status := Connected, timeoutArmed := false), r.0.acts + report)
  }

  /** `enableNotification`. */
  function EnableNotification(m: Manager, uuid: string): (r: MStep)
    ensures m.ble.None? ==> r.acts == [Threw(IncorrectState)]
    ensures m.ble.Some? && GetCharacteristic(m, uuid).None? ==> r.acts == [Threw(CharacteristicNotFound)]
    ensures m.ble.Some? && GetCharacteristic(m, uuid).Some? ==>
              GetCharacteristic(r.m, uuid).Some? && GetCharacteristic(r.m, uuid).value.notify
  {
    var r := ChangeNotification(m, uuid, true);
    FirstMatchAfterUpdate(m, uuid, true, r);
    r
  }

  /** `disableNotification`. */
  function DisableNotification(m: Manager, uuid: string): (r: MStep)
    ensures m.ble.None? ==> r.acts == [Threw(IncorrectState)]
    ensures m.ble.Some? && GetCharacteristic(m, uuid).None? ==> r.acts == [Threw(CharacteristicNotFound)]
    ensures m.ble.Some? && GetCharacteristic(m, uuid).Some? ==>
              GetCharacteristic(r.m, uuid).Some? && !GetCharacteristic(r.m, uuid).value.notify
  {
    var r := ChangeNotification(m, uuid, false);
    FirstMatchAfterUpdate(m, uuid, false, r);
    r
  }

  /** After the flag change the same position is still the first match, and holds the new flag. */
  lemma FirstMatchAfterUpdate(m: Manager, uuid: string, notify: bool, r: MStep)
    requires r == ChangeNotification(m, uuid, notify)
    ensures m.ble.Some? && GetCharacteristic(m, uuid).Some? ==>
              GetCharacteristic(r.m, uuid).Some? && GetCharacteristic(r.m, uuid).value.notify == notify
  {
    if m.ble.Some? && GetCharacteristic(m, uuid).Some? {
      var p := FindByUuid(m.services, uuid).value;
      var c := m.services[p.0].chars[p.1].(notify := notify);
      assert r.m.services == UpdateAt(m.services, p.0, p.1, c);
      FindByUuidAfterUpdate(m.services, p.0, p.1, c, uuid);
      assert GetCharacteristic(r.m, uuid) == Some(r.m.services[p.0].chars[p.1]);
    }
  }

  /**
   * `onDisconnected`. While connecting it reports `onConnectFail(0)`;
   * otherwise the session becomes disconnected, writes are disabled and the
   * disconnection is reported. Either way the timeout is cancelled and the
   * session ended.
   */
  function OnDisconnected(m: Manager): (r: MStep)
    ensures m.status.Connecting? || m.ble.Some? ==>
              r.m.status.Disconnected? && r.m.ble.None? && !r.m.timeoutArmed
    ensures OnConnectFail(0) in r.acts <==> m.status.Connecting? && m.hasListener
    ensures Action.OnDisconnected in r.acts <==> !m.status.Connecting? && m.ble.Some? && m.hasListener
    ensures !m.status.Connecting? && m.ble.None? ==> r == MStep(m.(status := Disconnected), [Threw(NullPointer)])
    ensures Inv(r.m)
  {
    if m.status.Connecting? then
      var report := if m.hasListener then [OnConnectFail(0)] else [];
      var e := End(m.(timeoutArmed := false));
      EndActs(m.(timeoutArmed := false));
      MStep(e.m, report + e.acts)
    else match m.ble
      case None => MStep(m.(status := Disconnected), [Threw(NullPointer)])
      case Some(le) =>
        var m1 := m.(status := Disconnected, ble := Some(LE.DisableWrite(le)), timeoutArmed := false);
        var report := if m.hasListener then [Action.OnDisconnected] else [];
        var e := End(m1);
        EndActs(m1);
        MStep(e.m, report + e.acts)
  }

  /** `end` reports nothing to the application. */
  lemma EndActs(m: Manager)
    ensures forall a :: a in End(m).acts ==> a.StopLeScan? || a.DisconnectGatt? || a.CloseGatt?
  {
  }

  /** `onStartListenNotificationComplete`: connected, writes enabled, the timeout cancelled, the application told. */
  function OnNotificationsReady(m: Manager): (r: MStep)
    ensures r.m.status.Connected? && (!r.m.timeoutArmed || m.ble.None?)
    ensures m.ble.Some? ==> r.m.ble == Some(LE.EnableWrite(m.ble.value)) && (r.acts == [OnConnected] <==> m.hasListener)
    ensures m.ble.Some? ==> r.m == m.(status := Connected, ble := r.m.ble, timeoutArmed := false)
    ensures m.ble.None? ==> r == MStep(m.(status := Connected), [Threw(NullPointer)])
  {
    match m.ble
    case None => MStep(m.(status := Connected), [Threw(NullPointer)])
    case Some(le) =>
      MStep(m.(status := Connected, ble := Some(LE.EnableWrite(le)), timeoutArmed := false),
            if m.hasListener then [OnConnected] else [])
  }

  /** The 20-byte chunks of `data` from `index` on, as the loop of `write(uuid, data)` cuts them. */
  function ChunksFrom(data: Bytes, index: nat): (r: seq<Bytes>)
    requires index <= |data| <= INT_MAX
    decreases |data| - index
    ensures Flatten(r) == data[index..]
    ensures forall k :: 0 <= k < |r| ==> 0 < |r[k]| <= DATA_CHUNK
    ensures forall k :: 0 <= k < |r| - 1 ==> |r[k]| == DATA_CHUNK
    ensures |r| == (|data| - index + DATA_CHUNK - 1) / DATA_CHUNK
  {
    if index >= |data| then []
    else match SubByteArrayIntended(data, index, DATA_CHUNK as Int32)
      case Success(Some(bytes)) =>
        assert data[index..] == bytes + data[index + |bytes|..];
        [bytes] + ChunksFrom(data, index + |bytes|)
      case _ => assert false; []
  }

  /**
   * Cutting every 20 bytes is the only way to split `data[index..]` into
   * non-empty chunks of at most 20 bytes that are all full but the last.
   */
  lemma {:induction false} CutIsUnique(cs: seq<Bytes>, data: Bytes, index: nat)
    requires index <= |data| <= INT_MAX && Flatten(cs) == data[index..]
    requires forall k :: 0 <= k < |cs| ==> 0 < |cs[k]| <= DATA_CHUNK
    requires forall k :: 0 <= k < |cs| - 1 ==> |cs[k]| == DATA_CHUNK
    ensures cs == ChunksFrom(data, index)
    decreases |cs|
  {
    if |cs| == 0 {
      assert |data[index..]| == 0;
    } else {
      var n := |cs[0]|;
      assert Flatten(cs) == cs[0] + Flatten(cs[1..]);
      assert n == Seqs.Min(DATA_CHUNK, |data| - index) by {
        if |cs| > 1 {
          assert cs[1..][0] == cs[1];
          assert |Flatten(cs[1..])| >= |cs[1]| > 0;
        }
      }
      assert cs[0] == data[index..index + n];
      assert Flatten(cs[1..]) == data[index + n..];
      CutIsUnique(cs[1..], data, index + n);
      assert ChunksFrom(data, index) == [Slice(data, index, DATA_CHUNK)] + ChunksFrom(data, index + n);
    }
  }

  /** The queue of the characteristic at `p` with `chunks` appended. */
  function Enqueue(m: Manager, p: (nat, nat), chunks: seq<Bytes>): (r: Manager)
    requires p.0 < |m.services| && p.1 < |m.services[p.0].chars|
    ensures r == m.(services := r.services) && Shape(r.services) == Shape(m.services)
    ensures r.services[p.0].chars[p.1] ==
              m.services[p.0].chars[p.1].(writeQueue := m.services[p.0].chars[p.1].writeQueue + chunks)
    ensures forall k, l :: 0 <= k < |m.services| && 0 <= l < |m.services[k].chars| && (k, l) != p ==>
              r.services[k].chars[l] == m.services[k].chars[l]
  {
    var c := m.services[p.0].chars[p.1];
    var r := m.(services := UpdateAt(m.services, p.0, p.1, c.(writeQueue := c.writeQueue + chunks)));
    assert Shape(r.services) == Shape(m.services);
    r
  }

  /**
   * `write(uuid, data)`: a `null` UUID or array is accepted and ignored; an
   * unknown UUID throws `CharacteristicNotFound`. Otherwise the data is queued
   * in 20-byte chunks on the first matching characteristic and, if its queue
   * was empty and now is not, the head chunk is written. The only chunk in
   * flight is therefore always the head of the queue.
   */
  function Write(m: Manager, uuid: Option<string>, data: ByteArray): (r: MStep)
    requires data.Some? ==> |data.value| <= INT_MAX
    ensures uuid.None? || data.None? ==> r == MStep(m, [])
    ensures uuid.Some? && data.Some? && GetCharacteristic(m, uuid.value).None? ==>
              r == MStep(m, [Threw(CharacteristicNotFound)])
    ensures uuid.Some? && data.Some? && GetCharacteristic(m, uuid.value).Some? ==>
              r.m == m.(services := r.m.services) && Shape(r.m.services) == Shape(m.services)
    ensures uuid.Some? && data.Some? && GetCharacteristic(m, uuid.value).Some? ==>
              QueuedAt(m, FindByUuid(m.services, uuid.value).value, data.value, r)
  {
    if uuid.None? || data.None? then MStep(m, [])
    else match FindByUuid(m.services, uuid.value)
      case None => MStep(m, [Threw(CharacteristicNotFound)])
      case Some(p) => WriteAt(m, p, data.value)
  }

  /**
   * The outcome of queueing `data` on the characteristic at `p`: every other
   * characteristic is unchanged; the old queue is a prefix of the new one,
   * whose contents are the old contents followed by `data` cut every 20
   * bytes; a write is issued exactly when the queue was empty and the data
   * is not, and it writes the new head chunk.
   */
  predicate QueuedAt(m: Manager, p: (nat, nat), data: Bytes, r: MStep)
  {
    p.0 < |m.services| && p.1 < |m.services[p.0].chars| &&
    Shape(r.m.services) == Shape(m.services) &&
    var q := m.services[p.0].chars[p.1].writeQueue;
    var q' := r.m.services[p.0].chars[p.1].writeQueue;
    (forall k, l :: 0 <= k < |m.services| && 0 <= l < |m.services[k].chars| && (k, l) != p ==>
       r.m.services[k].chars[l] == m.services[k].chars[l]) &&
    Grows(q, q', data) &&
    (|r.acts| > 0 <==> |q| == 0 && |data| > 0) &&
    (|r.acts| > 0 && m.ble.Some? ==> r.acts == [IssueWrite(m.services[p.0].chars[p.1].handle, q'[0])]) &&
    (|r.acts| > 0 && m.ble.None? ==> r.acts == [Threw(NullPointer)])
  }

  /**
   * `q'` is `q` followed by `data` cut every 20 bytes: ceil(|data| / 20) new
   * chunks, all of exactly 20 bytes but the last, which has 1 to 20.
   */
  predicate Grows(q: seq<Bytes>, q': seq<Bytes>, data: Bytes)
  {
    |q| <= |q'| && q'[..|q|] == q && Flatten(q') == Flatten(q) + data &&
    |q'| - |q| == (|data| + DATA_CHUNK - 1) / DATA_CHUNK &&
    (forall k :: |q| <= k < |q'| ==> 0 < |q'[k]| <= DATA_CHUNK) &&
    (forall k :: |q| <= k < |q'| - 1 ==> |q'[k]| == DATA_CHUNK)
  }

  /** Appending the chunks of `data` grows a queue by `data`, and adds a chunk exactly when `data` is not empty. */
  lemma ChunksGrow(q: seq<Bytes>, data: Bytes)
    requires |data| <= INT_MAX
    ensures Grows(q, q + ChunksFrom(data, 0), data)
    ensures |ChunksFrom(data, 0)| > 0 <==> |data| > 0
  {
    var chunks := ChunksFrom(data, 0);
    assert (q + chunks)[..|q|] == q;
    FlattenAppend(q, chunks);
    assert data[0..] == data;
  }

  /** `Grows` leaves one choice of new queue: the old one followed by the data cut every 20 bytes. */
  lemma GrowsIsChunking(q: seq<Bytes>, q': seq<Bytes>, data: Bytes)
    requires |data| <= INT_MAX && Grows(q, q', data)
    ensures q' == q + ChunksFrom(data, 0)
  {
    var cs := q'[|q|..];
    assert q' == q + cs;
    FlattenAppend(q, cs);
    var f := Flatten(q);
    assert Flatten(cs) == data by {
      assert f + Flatten(cs) == f + data;
      assert Flatten(cs) == (f + Flatten(cs))[|f|..];
      assert data == (f + data)[|f|..];
    }
    assert data[0..] == data;
    CutIsUnique(cs, data, 0);
  }

  /** `write(uuid, data)` once the characteristic at `p` is found. */
  function WriteAt(m: Manager, p: (nat, nat), data: Bytes): (r: MStep)
    requires p.0 < |m.services| && p.1 < |m.services[p.0].chars| && |data| <= INT_MAX
    ensures r.m == m.(services := r.m.services)
    ensures QueuedAt(m, p, data, r)
  {
    var q := m.services[p.0].chars[p.1].writeQueue;
    var chunks := ChunksFrom(data, 0);
    var m1 := Enqueue(m, p, chunks);
    var q' := q + chunks;
    ChunksGrow(q, data);
    if |q| == 0 && |chunks| > 0 then
      MStep(m1, if m.ble.Some? then [IssueWrite(m.services[p.0].chars[p.1].handle, q'[0])] else [Threw(NullPointer)])
    else MStep(m1, [])
  }

  /**
   * `write(uuid, data)` as written: the head is written whenever the queue was
   * empty, even when `data` added no chunk, and then `element()` on the empty
   * queue throws.
   */
  function WriteAsWritten(m: Manager, uuid: Option<string>, data: ByteArray): (r: MStep)
    requires data.Some? ==> |data.value| <= INT_MAX
    ensures uuid.Some? && data.Some? && GetCharacteristic(m, uuid.value).Some? &&
            |m.services[FindByUuid(m.services, uuid.value).value.0].chars[FindByUuid(m.services, uuid.value).value.1].writeQueue| == 0 &&
            |data.value| == 0 ==>
              r.acts == [Threw(NoSuchElement)]
    ensures !(uuid.Some? && data.Some? && GetCharacteristic(m, uuid.value).Some? && |data.value| == 0) ==>
              r == Write(m, uuid, data)
  {
    if uuid.None? || data.None? then MStep(m, [])
    else match FindByUuid(m.services, uuid.value)
      case None => MStep(m, [Threw(CharacteristicNotFound)])
      case Some(p) =>
        var q := m.services[p.0].chars[p.1].writeQueue;
        var chunks := ChunksFrom(data.value, 0);
        var m1 := Enqueue(m, p, chunks);
        var q' := q + chunks;
        // the arguments, `element()` included, are evaluated before `ble` is dereferenced
        if |q| == 0 then
          if |q'| == 0 then MStep(m1, [Threw(NoSuchElement)])
          else if m.ble.None? then MStep(m1, [Threw(NullPointer)])
          else MStep(m1, [IssueWrite(m.services[p.0].chars[p.1].handle, q'[0])])
        else MStep(m1, [])
  }

  /**
   * Writing an empty array to a characteristic with nothing queued: as
   * written, `NoSuchElementException`; corrected, nothing happens.
   */
  lemma WriteEmptyDataThrows(m: Manager, uuid: string)
    requires GetCharacteristic(m, uuid).Some? && GetCharacteristic(m, uuid).value.writeQueue == []
    ensures WriteAsWritten(m, Some(uuid), Some([])) == MStep(m, [Threw(NoSuchElement)])
    ensures Write(m, Some(uuid), Some([])).acts == []
    ensures Write(m, Some(uuid), Some([])).m == m
  {
    var p := FindByUuid(m.services, uuid).value;
    assert ChunksFrom([], 0) == [];
    assert m.services[p.0].chars[p.1].writeQueue + [] == m.services[p.0].chars[p.1].writeQueue;
    assert m.services[p.0].chars[p.1].(writeQueue := m.services[p.0].chars[p.1].writeQueue) == m.services[p.0].chars[p.1];
    UpdateAtSame(m.services, p.0, p.1);
  }

  /**
   * `onDidWrite`: the characteristic holding the acknowledged handle (see
   * `FindByHandle`) drops its head chunk and the next head, if any, is written.
   * No characteristic holds it: `NullPointerException`; empty queue:
   * `NoSuchElementException`.
   */
  function OnDidWrite(m: Manager, cha: GattChar): (r: MStep)
    ensures FindByHandle(m.services, cha).None? ==> r == MStep(m, [Threw(NullPointer)])
    ensures FindByHandle(m.services, cha).Some? ==>
              var p := FindByHandle(m.services, cha).value;
              var q := m.services[p.0].chars[p.1].writeQueue;
              (|q| == 0 ==> r == MStep(m, [Threw(NoSuchElement)])) &&
              (|q| > 0 ==>
                 r.m == m.(services := r.m.services) && Shape(r.m.services) == Shape(m.services) &&
                 r.m.services[p.0].chars[p.1].writeQueue == q[1..] &&
                 Flatten(q) == q[0] + Flatten(q[1..]) &&
                 (forall k, l :: 0 <= k < |m.services| && 0 <= l < |m.services[k].chars| && (k, l) != p ==>
                    r.m.services[k].chars[l] == m.services[k].chars[l]) &&
                 (|q| > 1 && m.ble.Some? ==> r.acts == [IssueWrite(Some(cha), q[1])]) &&
                 (|q| == 1 ==> r.acts == []))
  {
    match FindByHandle(m.services, cha)
    case None => MStep(m, [Threw(NullPointer)])
    case Some(p) =>
      var c := m.services[p.0].chars[p.1];
      if |c.writeQueue| == 0 then MStep(m, [Threw(NoSuchElement)])
      else
        var q' := c.writeQueue[1..];
        var services' := UpdateAt(m.services, p.0, p.1, c.(writeQueue := q'));
        var m1 := m.(services := services');
        assert Shape(services') == Shape(m.services);
        if |q'| > 0 then
          MStep(m1, if m.ble.Some? then [IssueWrite(Some(cha), q'[0])] else [Threw(NullPointer)])
        else MStep(m1, [])
  }

  /**
   * The transport's callbacks, delivered while the session holds its
   * transport (`end` detaches the listener).
   */
  function OnTransportEvent(m: Manager, up: LE.Upcall): (r: MStep)
    ensures m.ble.None? ==> r == MStep(m, [])
    ensures Inv(m) ==> Inv(r.m)
  {
    if m.ble.None? then MStep(m, [])
    else match up
      case ConnectResult(result, code) => OnConnectResult(m, result, code)
      case ServicesReady => OnServicesReady(m)
      case LinkDown => OnDisconnected(m)
      case DidWrite(ch, _) =>
        var r := OnDidWrite(m, ch);
        assert r.m.status == m.status && r.m.ble == m.ble && r.m.timeoutArmed == m.timeoutArmed;
        r
      case NotificationsReady => OnNotificationsReady(m)
  }

  /**
   * With no characteristic to be notified, a connect that succeeds and
   * completes discovery connects the session, cancels the timeout and tells
   * the application.
   */
  lemma ConnectWithoutNotifications(address: string, services: seq<Service>)
    requires !NotifyFrom(services, 0, 0)
    ensures var m0 := SetListener(New(address, services), true);
            var s1 := Connect(m0, false);
            var s2 := OnTransportEvent(s1.m, LE.ConnectResult(CONNECT_SUCCESS, 0));
            var s3 := OnTransportEvent(s2.m, LE.ServicesReady);
            s1.m.status.Connecting? && s1.m.timeoutArmed && ConnectGatt(address) in s1.acts &&
            s2.m == s1.m &&
            s3.m.status.Connected? && !s3.m.timeoutArmed && OnConnected in s3.acts
  {
  }

  /**
   * With a characteristic to be notified, discovery alone never connects the
   * session, even when the transport drops every entry for lack of a 0x2902
   * descriptor and reports `CONNECT_SUCCESS` instead: that report is ignored
   * and only `onStartListenNotificationComplete` connects. The pending
   * timeout then fails the connection with -1.
   */
  lemma NotifyWithoutCccdNeverConnects(m: Manager)
    requires m.ble.Some? && m.status.Connecting? && m.timeoutArmed && m.hasListener
    requires NotifyFrom(m.services, 0, 0)
    ensures var s := OnTransportEvent(m, LE.ServicesReady);
            s.m.status.Connecting? && s.m.timeoutArmed && !(OnConnected in s.acts) &&
            ConnectTimeoutFired(s.m).acts[0] == OnConnectFail(-1) &&
            ConnectTimeoutFired(s.m).m.status.Disconnected?
  {
  }

  /** A connect timeout never ends a connected session: becoming connected always cancels it. */
  lemma TimeoutNeverEndsConnectedSession(m: Manager)
    requires Inv(m) && m.status.Connected?
    ensures ConnectTimeoutFired(m) == MStep(m, [])
  {
  }

  /**
   * `end` leaves the connect timeout armed: a session ended by the
   * application while connecting still reports `onConnectFail(-1)` later.
   */
  lemma EndWhileConnectingStillTimesOut(m: Manager)
    requires m.status.Connecting? && m.timeoutArmed && m.hasListener
    ensures var e := End(m);
            e.m.timeoutArmed && ConnectTimeoutFired(e.m).acts == [OnConnectFail(-1)]
  {
  }
}
